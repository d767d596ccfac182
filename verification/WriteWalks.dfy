/**
 The loop of inode_write_at (src/filesys/inode.c) over whatever the entries hold:
 it never looks at the length of the file, so past its last sector it goes on
 through what its node, and the nodes that this one links to, hold there.
 */
module WriteWalks {
  import opened Storage
  import opened Sequences
  import opened Inodes

  /** What the loop does from entry `idx` of `refer` on, first at offset `ofs` of
      its sector, with `done` bytes written: the sectors afterwards, the bytes
      written, and whether it left the disk. */
  ghost function WalkWrite(d: seq<Sector>, refer: Sector, idx: nat, ofs: nat, rest: seq<Byte>, done: nat)
    : (r: (seq<Sector>, nat, bool))
    requires Disk(d) && |refer| == SECTOR_SIZE && idx < DIRECT_NO && ofs < SECTOR_SIZE
    ensures Disk(r.0) && |r.0| == |d|
    decreases |rest|
  {
    if rest == [] || Direct(refer, idx) >= 0x8000_0000 then (d, done, false)
    else if Direct(refer, idx) >= |d| then (d, done, true)
    else
      var d', n := Struck(d, refer, idx, ofs, rest), Min(SECTOR_SIZE - ofs, |rest|);
      if idx + 1 < DIRECT_NO then WalkWrite(d', refer, idx + 1, 0, rest[n..], done + n)
      else if Link(refer) >= |d| then (d', done + n, true)
      else WalkWrite(d', d'[Link(refer)], 0, 0, rest[n..], done + n)
  }

  /** One chunk, in the sector that the entry names. */
  ghost function Struck(d: seq<Sector>, refer: Sector, idx: nat, ofs: nat, rest: seq<Byte>): (d': seq<Sector>)
    requires Disk(d) && |refer| == SECTOR_SIZE && idx < DIRECT_NO && ofs < SECTOR_SIZE && Direct(refer, idx) < |d|
    ensures Disk(d') && |d'| == |d|
  {
    var s := Direct(refer, idx);
    d[s := Overlay(d[s], ofs, rest[..Min(SECTOR_SIZE - ofs, |rest|)])]
  }

  /** The sectors it writes to, in order. */
  ghost function Visits(d: seq<Sector>, refer: Sector, idx: nat, ofs: nat, rest: seq<Byte>): seq<nat>
    requires Disk(d) && |refer| == SECTOR_SIZE && idx < DIRECT_NO && ofs < SECTOR_SIZE
    decreases |rest|
  {
    if rest == [] || Direct(refer, idx) >= |d| then []
    else
      var d', n := Struck(d, refer, idx, ofs, rest), Min(SECTOR_SIZE - ofs, |rest|);
      [Direct(refer, idx)] +
      if idx + 1 < DIRECT_NO then Visits(d', refer, idx + 1, 0, rest[n..])
      else if Link(refer) >= |d| then []
      else Visits(d', d'[Link(refer)], 0, 0, rest[n..])
  }

  /** One iteration. */
  lemma WalkStep(d: seq<Sector>, refer: Sector, idx: nat, ofs: nat, rest: seq<Byte>, done: nat)
    requires Disk(d) && |refer| == SECTOR_SIZE && idx < DIRECT_NO && ofs < SECTOR_SIZE
    ensures WalkWrite(d, refer, idx, ofs, rest, done) ==
      if rest == [] || Direct(refer, idx) >= 0x8000_0000 then (d, done, false)
      else if Direct(refer, idx) >= |d| then (d, done, true)
      else
        var d', n := Struck(d, refer, idx, ofs, rest), Min(SECTOR_SIZE - ofs, |rest|);
        if idx + 1 < DIRECT_NO then WalkWrite(d', refer, idx + 1, 0, rest[n..], done + n)
        else if Link(refer) >= |d| then (d', done + n, true)
        else WalkWrite(d', d'[Link(refer)], 0, 0, rest[n..], done + n)
  {
  }

  lemma VisitStep(d: seq<Sector>, refer: Sector, idx: nat, ofs: nat, rest: seq<Byte>)
    requires Disk(d) && |refer| == SECTOR_SIZE && idx < DIRECT_NO && ofs < SECTOR_SIZE
    ensures Visits(d, refer, idx, ofs, rest) ==
      if rest == [] || Direct(refer, idx) >= |d| then []
      else
        var d', n := Struck(d, refer, idx, ofs, rest), Min(SECTOR_SIZE - ofs, |rest|);
        [Direct(refer, idx)] +
        if idx + 1 < DIRECT_NO then Visits(d', refer, idx + 1, 0, rest[n..])
        else if Link(refer) >= |d| then []
        else Visits(d', d'[Link(refer)], 0, 0, rest[n..])
  {
  }

  lemma StruckAt(d: seq<Sector>, refer: Sector, idx: nat, ofs: nat, rest: seq<Byte>)
    requires Disk(d) && |refer| == SECTOR_SIZE && idx < DIRECT_NO && ofs < SECTOR_SIZE && Direct(refer, idx) < |d|
    ensures var s, n := Direct(refer, idx), Min(SECTOR_SIZE - ofs, |rest|);
      Struck(d, refer, idx, ofs, rest) == d[s := Overlay(d[s], ofs, rest[..n])]
  {
  }

  // ----- what reaches the disk -----

  /** Where chunk `j` of what is written starts. */
  function Start(ofs: nat, j: nat): int
  {
    if j == 0 then 0 else SECTOR_SIZE * j - ofs
  }

  function ChunkLength(ofs: nat, j: nat, total: nat): int
    requires ofs < SECTOR_SIZE
  {
    Min(SECTOR_SIZE * (j + 1) - ofs, total) - Start(ofs, j)
  }

  /** Sector `b` holds chunk `j`. */
  ghost predicate Landed(b: Sector, ofs: nat, rest: seq<Byte>, j: nat)
    requires ofs < SECTOR_SIZE
  {
    var o, a, n := if j == 0 then ofs else 0, Start(ofs, j), ChunkLength(ofs, j, |rest|);
    0 <= a && 0 < n && a + n <= |rest| && o + n <= |b| && b[o..o + n] == rest[a..a + n]
  }

  /** Outside the visited sectors nothing changed, and each of them holds the
      chunk of its last visit. */
  ghost predicate Astray(d: seq<Sector>, d': seq<Sector>, v: seq<nat>, ofs: nat, rest: seq<Byte>)
    requires ofs < SECTOR_SIZE
  {
    SameOutside(d, d', v) && forall j: nat :: LastVisit(v, j) ==> LandedAt(d', v, ofs, rest, j)
  }

  ghost predicate LandedAt(d: seq<Sector>, v: seq<nat>, ofs: nat, rest: seq<Byte>, j: nat)
    requires ofs < SECTOR_SIZE
  {
    j < |v| && v[j] < |d| && Landed(d[v[j]], ofs, rest, j)
  }

  ghost predicate SameOutside(d: seq<Sector>, d': seq<Sector>, v: seq<nat>)
  {
    |d'| == |d| && forall s :: 0 <= s < |d| && s !in v ==> d'[s] == d[s]
  }

  ghost predicate LastVisit(v: seq<nat>, j: nat)
  {
    j < |v| && v[j] !in v[j + 1..]
  }

  lemma LaterChunk(b: Sector, ofs: nat, rest: seq<Byte>, n: nat, j: nat)
    requires ofs < SECTOR_SIZE && n == SECTOR_SIZE - ofs <= |rest| && j > 0 && Landed(b, 0, rest[n..], j - 1)
    ensures Landed(b, ofs, rest, j)
  {
    var a, m := Start(0, j - 1), ChunkLength(0, j - 1, |rest[n..]|);
    assert Start(ofs, j) == n + a && ChunkLength(ofs, j, |rest|) == m;
    assert rest[n..][a..a + m] == rest[n + a..n + a + m];
  }

  lemma FirstChunk(b: Sector, ofs: nat, rest: seq<Byte>)
    requires ofs < SECTOR_SIZE == |b| && rest != []
    ensures Landed(Overlay(b, ofs, rest[..Min(SECTOR_SIZE - ofs, |rest|)]), ofs, rest, 0)
  {
  }

  lemma AstrayMore(d: seq<Sector>, d': seq<Sector>, s: nat, v: seq<nat>, ofs: nat, rest: seq<Byte>, n: nat)
    requires Disk(d) && s < |d| && ofs < SECTOR_SIZE && rest != [] && n == Min(SECTOR_SIZE - ofs, |rest|)
    requires v != [] ==> n == SECTOR_SIZE - ofs
    requires Astray(d[s := Overlay(d[s], ofs, rest[..n])], d', v, 0, rest[n..])
    ensures Astray(d, d', [s] + v, ofs, rest)
  {
    var all, d1 := [s] + v, d[s := Overlay(d[s], ofs, rest[..n])];
    hide Landed, Overlay, LastVisit, Disk, SameOutside, LandedAt;
    OutsideMore(d, d1, d', s, v);
    forall j: nat | LastVisit(all, j) ensures LandedAt(d', all, ofs, rest, j) {
      LandedMore(d, d', s, v, ofs, rest, n, j);
    }
  }

  lemma LandedMore(d: seq<Sector>, d': seq<Sector>, s: nat, v: seq<nat>, ofs: nat, rest: seq<Byte>, n: nat, j: nat)
    requires Disk(d) && s < |d| && ofs < SECTOR_SIZE && rest != [] && n == Min(SECTOR_SIZE - ofs, |rest|)
    requires v != [] ==> n == SECTOR_SIZE - ofs
    requires Astray(d[s := Overlay(d[s], ofs, rest[..n])], d', v, 0, rest[n..]) && LastVisit([s] + v, j)
    ensures LandedAt(d', [s] + v, ofs, rest, j)
  {
    LastVisitMore(s, v, j);
    hide LastVisit, Landed;
    if j == 0 {
      FirstChunk(d[s], ofs, rest);
      OutsideAt(d[s := Overlay(d[s], ofs, rest[..n])], d', v, s);
    } else {
      assert LandedAt(d', v, 0, rest[n..], j - 1);
      LaterChunk(d'[v[j - 1]], ofs, rest, n, j);
    }
  }

  lemma OutsideMore(d: seq<Sector>, d1: seq<Sector>, d': seq<Sector>, s: nat, v: seq<nat>)
    requires s < |d| && |d1| == |d| && d1 == d[s := d1[s]] && SameOutside(d1, d', v)
    ensures SameOutside(d, d', [s] + v) && forall x :: x in [s] + v <==> x == s || x in v
  {
  }

  lemma OutsideAt(d: seq<Sector>, d': seq<Sector>, v: seq<nat>, s: nat)
    requires SameOutside(d, d', v) && s < |d| && s !in v
    ensures s < |d'| && d'[s] == d[s]
  {
  }

  lemma LastVisitMore(s: nat, v: seq<nat>, j: nat)
    requires LastVisit([s] + v, j)
    ensures j <= |v| && if j == 0 then s !in v else LastVisit(v, j - 1)
  {
    var all := [s] + v;
    assert all[j + 1..] == v[j..];
  }

  /** How many bytes the visited sectors take. */
  function Reach(v: nat, ofs: nat, total: nat): nat
    requires ofs < SECTOR_SIZE
  {
    if v == 0 then 0 else Min(SECTOR_SIZE * v - ofs, total)
  }

  /** For every length: exactly the visited sectors are written, each with its
      part of the buffer, and that is all that is counted as written. */
  lemma {:induction false} WalkEffect(d: seq<Sector>, refer: Sector, idx: nat, ofs: nat, rest: seq<Byte>, done: nat)
    requires Disk(d) && |refer| == SECTOR_SIZE && idx < DIRECT_NO && ofs < SECTOR_SIZE
    ensures var r, v := WalkWrite(d, refer, idx, ofs, rest, done), Visits(d, refer, idx, ofs, rest);
      Astray(d, r.0, v, ofs, rest) && r.1 == done + Reach(|v|, ofs, |rest|)
    decreases |rest|
  {
    hide Astray, Direct, Link, WalkWrite, Visits, Struck, Overlay;
    WalkStep(d, refer, idx, ofs, rest, done);
    VisitStep(d, refer, idx, ofs, rest);
    if rest == [] || Direct(refer, idx) >= |d| {
      AstrayNothing(d, ofs, rest);
    } else {
      var s, d1, n := Direct(refer, idx), Struck(d, refer, idx, ofs, rest), Min(SECTOR_SIZE - ofs, |rest|);
      StruckAt(d, refer, idx, ofs, rest);
      var v := Visits(d, refer, idx, ofs, rest);
      var r := WalkWrite(d, refer, idx, ofs, rest, done);
      if idx + 1 < DIRECT_NO {
        VisitStep(d1, refer, idx + 1, 0, rest[n..]);
        WalkEffect(d1, refer, idx + 1, 0, rest[n..], done + n);
      } else if Link(refer) >= |d| {
        AstrayNothing(d1, 0, rest[n..]);
      } else {
        VisitStep(d1, d1[Link(refer)], 0, 0, rest[n..]);
        WalkEffect(d1, d1[Link(refer)], 0, 0, rest[n..], done + n);
      }
      assert v == [s] + v[1..];
      AstrayMore(d, r.0, s, v[1..], ofs, rest, n);
    }
  }

  lemma AstrayNothing(d: seq<Sector>, ofs: nat, rest: seq<Byte>)
    requires ofs < SECTOR_SIZE
    ensures Astray(d, d, [], ofs, rest)
  {
  }

  // ----- which sectors a write spares -----

  /** How many sectors `size` bytes from offset `ofs` of a sector on take. */
  function Chunks(ofs: nat, size: nat): nat
  {
    if size == 0 then 0 else SectorCount(ofs + size)
  }

  /** The nodes that a write to `n` sectors has yet to follow links to, as the
      disk is before it. */
  ghost function NodesAhead(d: seq<Sector>, refer: Sector, idx: nat, n: nat): seq<nat>
    requires Disk(d) && |refer| == SECTOR_SIZE && idx < DIRECT_NO
    decreases n
  {
    if n <= 1 || Direct(refer, idx) >= |d| then []
    else if idx + 1 < DIRECT_NO then NodesAhead(d, refer, idx + 1, n - 1)
    else if Link(refer) >= |d| then []
    else [Link(refer)] + NodesAhead(d, d[Link(refer)], 0, n - 1)
  }

  /** None of the `n` entries names `s`, or a node that is yet to be followed. */
  ghost predicate Spared(d: seq<Sector>, refer: Sector, idx: nat, n: nat, s: nat)
    requires Disk(d) && |refer| == SECTOR_SIZE && idx < DIRECT_NO
    decreases n
  {
    n == 0 || Direct(refer, idx) >= |d| ||
    (&& Direct(refer, idx) != s && Direct(refer, idx) !in NodesAhead(d, refer, idx, n)
     && if idx + 1 < DIRECT_NO then Spared(d, refer, idx + 1, n - 1, s)
        else Link(refer) >= |d| || Spared(d, d[Link(refer)], 0, n - 1, s))
  }

  /** The same sectors at `v`. */
  ghost predicate SameAt(d: seq<Sector>, d': seq<Sector>, v: seq<nat>)
  {
    |d'| == |d| && forall x :: x in v ==> x < |d| && d'[x] == d[x]
  }

  lemma ChunksLeft(ofs: nat, size: nat)
    requires ofs < SECTOR_SIZE && size > 0
    ensures var n := Min(SECTOR_SIZE - ofs, size);
      Chunks(ofs, size) == 1 + Chunks(0, size - n) && (size > n ==> n == SECTOR_SIZE - ofs && Chunks(0, size - n) > 0)
  {
  }

  lemma AheadFirst(d: seq<Sector>, refer: Sector, idx: nat, n: nat)
    requires Disk(d) && |refer| == SECTOR_SIZE && idx < DIRECT_NO <= idx + 1 && n > 1 && Direct(refer, idx) < |d|
    requires Link(refer) < |d|
    ensures var l := Link(refer);
      forall x :: x in NodesAhead(d, refer, idx, n) <==> x == l || x in NodesAhead(d, d[l], 0, n - 1)
  {
  }

  /** What is spared is not visited, whatever is written. */
  lemma {:induction false} SparedStays(d: seq<Sector>, d1: seq<Sector>, refer: Sector, idx: nat, ofs: nat,
                                       rest: seq<Byte>, s: nat)
    requires Disk(d) && Disk(d1) && |refer| == SECTOR_SIZE && idx < DIRECT_NO && ofs < SECTOR_SIZE
    requires SameAt(d, d1, NodesAhead(d, refer, idx, Chunks(ofs, |rest|)))
    requires Spared(d, refer, idx, Chunks(ofs, |rest|), s)
    ensures s !in Visits(d1, refer, idx, ofs, rest)
    decreases |rest|
  {
    hide Direct, Link, SectorCount;
    if rest != [] && Direct(refer, idx) < |d| {
      var n, d2 := Min(SECTOR_SIZE - ofs, |rest|), Struck(d1, refer, idx, ofs, rest);
      ChunksLeft(ofs, |rest|);
      if rest[n..] == [] {
      } else if idx + 1 < DIRECT_NO {
        SparedStays(d, d2, refer, idx + 1, 0, rest[n..], s);
      } else if Link(refer) < |d| {
        AheadFirst(d, refer, idx, Chunks(ofs, |rest|));
        SparedStays(d, d2, d[Link(refer)], 0, 0, rest[n..], s);
      }
    }
  }

  /** From its second sector on, or from the first if that is written from its
      start, a write repeats `p`. */
  ghost predicate Laced(rest: seq<Byte>, ofs: nat, p: Sector)
    requires |p| == SECTOR_SIZE
  {
    forall i :: 0 <= i < |rest| && (ofs == 0 || i >= SECTOR_SIZE - ofs) ==> rest[i] == p[(i + ofs) % SECTOR_SIZE]
  }

  lemma LacedRest(rest: seq<Byte>, ofs: nat, p: Sector)
    requires |p| == SECTOR_SIZE && ofs < SECTOR_SIZE && |rest| > SECTOR_SIZE - ofs && Laced(rest, ofs, p)
    ensures Laced(rest[SECTOR_SIZE - ofs..], 0, p)
  {
    var n, more := SECTOR_SIZE - ofs, rest[SECTOR_SIZE - ofs..];
    forall i | 0 <= i < |more| ensures more[i] == p[i % SECTOR_SIZE] {
      assert more[i] == rest[n + i] && (n + i + ofs) % SECTOR_SIZE == i % SECTOR_SIZE;
    }
  }

  /** Where the sectors still to be followed are as they were, or hold `p`. */
  ghost predicate Mixed(d: seq<Sector>, d': seq<Sector>, v: seq<nat>, p: Sector)
  {
    |d'| == |d| && forall x :: x in v ==> x < |d| && (d'[x] == d[x] || d'[x] == p)
  }

  lemma MixedMore(d: seq<Sector>, d1: seq<Sector>, v: seq<nat>, p: Sector, e: nat, w: seq<nat>)
    requires Mixed(d, d1, v, p) && e < |d| && forall x :: x in w ==> x in v
    ensures Mixed(d, d1[e := p], w, p)
  {
  }

  lemma Repeated(b: Sector, rest: seq<Byte>, p: Sector)
    requires |b| == |p| == SECTOR_SIZE <= |rest| && Laced(rest, 0, p)
    ensures Overlay(b, 0, rest[..SECTOR_SIZE]) == p
  {
    assert forall i :: 0 <= i < SECTOR_SIZE ==> rest[i] == p[i];
  }

  /** A node that is overwritten before the link to it is followed leads where the
      buffer says. */
  lemma {:induction false} Misled(d: seq<Sector>, d1: seq<Sector>, refer: Sector, idx: nat, rest: seq<Byte>, s: nat,
                                  p: Sector, x: nat)
    requires Disk(d) && Disk(d1) && |refer| == |p| == SECTOR_SIZE && idx < DIRECT_NO && s < |d| && Direct(p, 0) == s
    requires Laced(rest, 0, p) && Mixed(d, d1, NodesAhead(d, refer, idx, Chunks(0, |rest|)), p)
    requires x in NodesAhead(d, refer, idx, Chunks(0, |rest|)) && (x == Direct(refer, idx) || d1[x] == p)
    ensures s in Visits(d1, refer, idx, 0, rest)
    decreases |rest|
  {
    hide Direct, Link, SectorCount, Laced, Overlay;
    var ahead := NodesAhead(d, refer, idx, Chunks(0, |rest|));
    ChunksLeft(0, |rest|);
    var d2, more := Struck(d1, refer, idx, 0, rest), rest[SECTOR_SIZE..];
    Repeated(d1[Direct(refer, idx)], rest, p);
    LacedRest(rest, 0, p);
    if idx + 1 < DIRECT_NO {
      MixedMore(d, d1, ahead, p, Direct(refer, idx), NodesAhead(d, refer, idx + 1, Chunks(0, |more|)));
      Misled(d, d2, refer, idx + 1, more, s, p, x);
      return;
    }
    AheadFirst(d, refer, idx, Chunks(0, |rest|));
    if d2[Link(refer)] != p {
      MixedMore(d, d1, ahead, p, Direct(refer, idx), NodesAhead(d, d[Link(refer)], 0, Chunks(0, |more|)));
      Misled(d, d2, d[Link(refer)], 0, more, s, p, x);
    }
  }

  /** What is not spared is visited, for a buffer that names it in every sector. */
  lemma {:induction false} Strikes(d: seq<Sector>, d1: seq<Sector>, refer: Sector, idx: nat, ofs: nat, rest: seq<Byte>,
                                   s: nat, p: Sector)
    requires Disk(d) && Disk(d1) && |refer| == |p| == SECTOR_SIZE && idx < DIRECT_NO && ofs < SECTOR_SIZE
    requires s < |d| && Direct(p, 0) == s && Laced(rest, ofs, p)
    requires SameAt(d, d1, NodesAhead(d, refer, idx, Chunks(ofs, |rest|)))
    requires !Spared(d, refer, idx, Chunks(ofs, |rest|), s)
    requires ofs == 0 || Direct(refer, idx) !in NodesAhead(d, refer, idx, Chunks(ofs, |rest|))
    ensures s in Visits(d1, refer, idx, ofs, rest)
    decreases |rest|
  {
    hide Direct, Link, SectorCount, Laced, Overlay;
    if Direct(refer, idx) == s {
    } else if Direct(refer, idx) in NodesAhead(d, refer, idx, Chunks(ofs, |rest|)) {
      Misled(d, d1, refer, idx, rest, s, p, Direct(refer, idx));
    } else {
      var n, d2 := SECTOR_SIZE - ofs, Struck(d1, refer, idx, ofs, rest);
      ChunksLeft(ofs, |rest|);
      LacedRest(rest, ofs, p);
      if idx + 1 < DIRECT_NO {
        Strikes(d, d2, refer, idx + 1, 0, rest[n..], s, p);
      } else {
        AheadFirst(d, refer, idx, Chunks(ofs, |rest|));
        Strikes(d, d2, d[Link(refer)], 0, 0, rest[n..], s, p);
      }
    }
  }

  /** A node whose every entry names `s`, and whose first byte is `c`. */
  function Lure(s: nat, c: Byte): (p: Sector)
    requires s < 0x8000_0000
    ensures |p| == SECTOR_SIZE
  {
    ToBytes(seq(128, i => if i == 0 then c as Word else s as Word))
  }

  lemma LureNames(s: nat, c: Byte)
    requires s < 0x8000_0000
    ensures Direct(Lure(s, c), 0) == s && Lure(s, c)[0] == c
  {
    WordRoundTrip(seq(128, i => if i == 0 then c as Word else s as Word), 3);
  }

  /** A buffer for a write from offset `ofs` of a sector on: what it puts there
      differs from what `b` holds, and every later sector is a lure. */
  ghost function Bait(b: Sector, ofs: nat, size: nat, s: nat): (rest: seq<Byte>)
    requires |b| == SECTOR_SIZE && ofs < SECTOR_SIZE && s < 0x8000_0000
    ensures |rest| == size
  {
    seq(size, i requires 0 <= i < size => BaitByte(b, ofs, s, i))
  }

  function BaitByte(b: Sector, ofs: nat, s: nat, i: nat): Byte
    requires |b| == SECTOR_SIZE && ofs < SECTOR_SIZE && s < 0x8000_0000
  {
    if ofs > 0 && i < SECTOR_SIZE - ofs then Other(b[ofs]) else Lure(s, Other(b[0]))[(i + ofs) % SECTOR_SIZE]
  }

  function Other(c: Byte): Byte
  {
    if c == 0 then 1 else 0
  }

  lemma {:induction false} FindLast(v: seq<nat>, s: nat) returns (j: nat)
    requires s in v
    ensures LastVisit(v, j) && v[j] == s
  {
    j := |v| - 1;
    while v[j] != s
      invariant 0 <= j < |v| && s in v[..j + 1] && s !in v[j + 1..]
      decreases j
    {
      assert v[j..] == [v[j]] + v[j + 1..] && v[..j + 1] == v[..j] + [v[j]];
      j := j - 1;
    }
  }

  /** Exactly the sectors that the entries name, or could be made to name, are at
      risk: a write of `size` bytes leaves `s` alone, whatever it writes, if and
      only if `s` is spared on the disk as it is before. */
  lemma SparesIff(d: seq<Sector>, refer: Sector, idx: nat, ofs: nat, size: nat, s: nat)
    requires Disk(d) && |refer| == SECTOR_SIZE && idx < DIRECT_NO && ofs < SECTOR_SIZE && s < |d|
    requires ofs == 0 || Direct(refer, idx) !in NodesAhead(d, refer, idx, Chunks(ofs, size))
    ensures Spared(d, refer, idx, Chunks(ofs, size), s) <==>
      forall rest: seq<Byte> :: |rest| == size ==> Untouched(d, refer, idx, ofs, rest, s)
  {
    hide Spared, NodesAhead, Chunks, WalkWrite, Visits, Direct, Bait, Disk, Untouched, SameAt;
    AheadOnDisk(d, refer, idx, Chunks(ofs, size));
    if Spared(d, refer, idx, Chunks(ofs, size), s) {
      forall rest: seq<Byte> | |rest| == size ensures Untouched(d, refer, idx, ofs, rest, s) {
        SparedStays(d, d, refer, idx, ofs, rest, s);
        NotVisited(d, refer, idx, ofs, rest, s);
      }
    } else {
      Baited(d, refer, idx, ofs, size, s);
    }
  }

  /** Sector `s` is as it was. */
  ghost predicate Untouched(d: seq<Sector>, refer: Sector, idx: nat, ofs: nat, rest: seq<Byte>, s: nat)
    requires Disk(d) && |refer| == SECTOR_SIZE && idx < DIRECT_NO && ofs < SECTOR_SIZE && s < |d|
  {
    WalkWrite(d, refer, idx, ofs, rest, 0).0[s] == d[s]
  }

  lemma {:induction false} AheadOnDisk(d: seq<Sector>, refer: Sector, idx: nat, n: nat)
    requires Disk(d) && |refer| == SECTOR_SIZE && idx < DIRECT_NO
    ensures SameAt(d, d, NodesAhead(d, refer, idx, n))
    decreases n
  {
    hide Direct, Link;
    if n <= 1 || Direct(refer, idx) >= |d| {
    } else if idx + 1 < DIRECT_NO {
      AheadOnDisk(d, refer, idx + 1, n - 1);
    } else if Link(refer) < |d| {
      AheadFirst(d, refer, idx, n);
      AheadOnDisk(d, d[Link(refer)], 0, n - 1);
    }
  }

  lemma NotVisited(d: seq<Sector>, refer: Sector, idx: nat, ofs: nat, rest: seq<Byte>, s: nat)
    requires Disk(d) && |refer| == SECTOR_SIZE && idx < DIRECT_NO && ofs < SECTOR_SIZE && s < |d|
    requires s !in Visits(d, refer, idx, ofs, rest)
    ensures Untouched(d, refer, idx, ofs, rest, s)
  {
    WalkEffect(d, refer, idx, ofs, rest, 0);
    hide WalkWrite, Visits, Disk, LandedAt;
  }

  lemma Baited(d: seq<Sector>, refer: Sector, idx: nat, ofs: nat, size: nat, s: nat)
    requires Disk(d) && |refer| == SECTOR_SIZE && idx < DIRECT_NO && ofs < SECTOR_SIZE && s < |d|
    requires ofs == 0 || Direct(refer, idx) !in NodesAhead(d, refer, idx, Chunks(ofs, size))
    requires !Spared(d, refer, idx, Chunks(ofs, size), s)
    ensures !Untouched(d, refer, idx, ofs, Bait(d[s], ofs, size, s), s)
  {
    var rest, p := Bait(d[s], ofs, size, s), Lure(s, Other(d[s][0]));
    LureNames(s, Other(d[s][0]));
    assert Laced(rest, ofs, p);
    BaitAt(d[s], ofs, size, s);
    AheadOnDisk(d, refer, idx, Chunks(ofs, size));
    hide Spared, NodesAhead, Chunks, WalkWrite, Visits, Direct, Bait, Disk, SameAt, Laced, Lure, LastVisit, Landed, Other;
    Strikes(d, d, refer, idx, ofs, rest, s, p);
    WalkEffect(d, refer, idx, ofs, rest, 0);
    var v, d' := Visits(d, refer, idx, ofs, rest), WalkWrite(d, refer, idx, ofs, rest, 0).0;
    var j := FindLast(v, s);
    assert LandedAt(d', v, ofs, rest, j);
    LandedDiffers(d'[s], d[s], ofs, rest, j);
  }

  /** The first byte of each chunk is not what `b` holds there. */
  ghost predicate Foreign(b: Sector, ofs: nat, rest: seq<Byte>)
    requires |b| == SECTOR_SIZE && ofs < SECTOR_SIZE
  {
    && (rest != [] ==> rest[0] != b[ofs])
    && forall i :: 0 < i < |rest| && (i + ofs) % SECTOR_SIZE == 0 ==> rest[i] != b[0]
  }

  lemma BaitAt(b: Sector, ofs: nat, size: nat, s: nat)
    requires |b| == SECTOR_SIZE && ofs < SECTOR_SIZE && s < 0x8000_0000
    ensures Foreign(b, ofs, Bait(b, ofs, size, s))
  {
    LureNames(s, Other(b[0]));
    hide Lure;
    assert size > 0 ==> Bait(b, ofs, size, s)[0] == BaitByte(b, ofs, s, 0);
  }

  lemma LandedDiffers(b': Sector, b: Sector, ofs: nat, rest: seq<Byte>, j: nat)
    requires |b| == SECTOR_SIZE && ofs < SECTOR_SIZE && Foreign(b, ofs, rest) && Landed(b', ofs, rest, j)
    ensures b' != b
  {
    var o, a, n := if j == 0 then ofs else 0, Start(ofs, j), ChunkLength(ofs, j, |rest|);
    assert b'[o] == b'[o..o + n][0] == rest[a..a + n][0] == rest[a];
    assert j > 0 ==> a + ofs == SECTOR_SIZE * j;
  }
}
