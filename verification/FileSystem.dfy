/**
 Reading, writing, creating, growing and releasing files (src/filesys/inode.c,
 the linked layout; src/filesys/free-map.c), all of it through the buffer cache.
 */
module FileSystem {
  import opened Bitmaps
  import opened Storage
  import opened Sequences
  import opened Inodes
  import opened Allocation
  import opened BufferCache
  import opened WriteWalks

  ghost predicate Overlaid<T>(r: seq<T>, s: seq<T>, at: nat, b: seq<T>)
  {
    at + |b| <= |s| && r == Overlay(s, at, b)
  }

  lemma OverlaidPointwise<T>(r: seq<T>, s: seq<T>, at: nat, b: seq<T>)
    requires at + |b| <= |s| == |r|
    requires forall i :: 0 <= i < |s| ==> r[i] == if at <= i < at + |b| then b[i - at] else s[i]
    ensures Overlaid(r, s, at, b)
  {
  }

  lemma OverlaidTwice<T>(s: seq<T>, at: nat, b: seq<T>, k: nat, n: nat, r: seq<T>, r': seq<T>)
    requires at + |b| <= |s| && k + n <= |b| && Overlaid(r, s, at, b[..k]) && Overlaid(r', r, at + k, b[k..k + n])
    ensures Overlaid(r', s, at, b[..k + n])
  {
    OverlaidPointwise(r', s, at, b[..k + n]);
  }

  /** `part` is what `s` holds from `a` up to `b`. */
  ghost predicate Copied<T>(part: seq<T>, s: seq<T>, a: nat, b: nat)
  {
    a <= b <= |s| && part == s[a..b]
  }

  lemma CopiedNothing<T>(s: seq<T>, a: nat)
    requires a <= |s|
    ensures Copied([], s, a, a)
  {
  }

  lemma CopiedMore<T>(part: seq<T>, more: seq<T>, s: seq<T>, a: nat, b: nat, c: nat)
    requires Copied(part, s, a, b) && Copied(more, s, b, c)
    ensures Copied(part + more, s, a, c)
  {
  }

  lemma ReadSlice<T>(buffer: seq<T>, s: seq<T>, length: nat, offset: nat, left: nat)
    requires Copied(buffer, s, offset, offset + left) && offset + left <= length <= |s|
    ensures |buffer| == left && buffer == s[..length][offset..offset + left]
  {
  }

  lemma FitsSectors(length: nat)
    ensures length <= SECTOR_SIZE * SectorCount(length) < length + SECTOR_SIZE
  {
  }

  /** The chain of `f` is all there, and no sector serves twice. */
  ghost predicate Intact(d: seq<Sector>, f: File)
  {
    Disk(d) && Linked(d, f) && Distinct(f.nodes + f.data)
  }

  lemma IntactFacts(d: seq<Sector>, f: File)
    requires Intact(d, f)
    ensures Disk(d) && Linked(d, f) && Distinct(f.nodes + f.data)
  {
  }

  lemma IsIntact(d: seq<Sector>, f: File)
    requires Disk(d) && Linked(d, f) && Distinct(f.nodes + f.data)
    ensures Intact(d, f)
  {
  }

  /** Going up to byte `end` fills the last entry of the last node, and the
      loops then follow that node's link off the disk. */
  ghost predicate RunsOff(d: seq<Sector>, f: File, end: nat)
    requires Disk(d) && Linked(d, f)
  {
    end > SECTOR_SIZE * (DIRECT_NO * |f.nodes| - 1) && Link(d[f.nodes[|f.nodes| - 1]]) >= |d|
  }

  // ----- finding a byte -----

  /** The loops of inode_read_at and inode_write_at: entry `idx` of the node at
      `node`, offset `ofs` in its sector, is where byte `pos` of the file is. */
  ghost predicate Cursor(d: seq<Sector>, f: File, refer: Sector, node: nat, idx: nat, ofs: nat, pos: nat)
  {
    && node < |f.nodes| && f.nodes[node] < |d| && refer == d[f.nodes[node]]
    && idx < DIRECT_NO && ofs < SECTOR_SIZE
    && pos == SECTOR_SIZE * (DIRECT_NO * node + idx) + ofs
  }

  /** Where byte `p` of a file lives: sector index, node index, entry. */
  lemma Position(f: File, p: nat)
    requires |f.nodes| == 1 + ExtraNodes(|f.data|) && p < SECTOR_SIZE * |f.data|
    ensures p / SECTOR_SIZE < |f.data|
    ensures p / SECTOR_SIZE / DIRECT_NO == p / (SECTOR_SIZE * DIRECT_NO) < |f.nodes|
  {
    var q := p / SECTOR_SIZE;
    var k := q / DIRECT_NO;
    assert p == SECTOR_SIZE * DIRECT_NO * k + (SECTOR_SIZE * (q % DIRECT_NO) + p % SECTOR_SIZE);
    assert 0 <= SECTOR_SIZE * (q % DIRECT_NO) + p % SECTOR_SIZE < SECTOR_SIZE * DIRECT_NO;
  }

  lemma StartCursor(d: seq<Sector>, f: File, p: nat)
    requires Disk(d) && Linked(d, f) && p < SECTOR_SIZE * |f.data|
    ensures var node := p / (SECTOR_SIZE * DIRECT_NO);
      node < |f.nodes| && f.nodes[node] < |d| &&
      Cursor(d, f, d[f.nodes[node]], node, p / SECTOR_SIZE % DIRECT_NO, p % SECTOR_SIZE, p)
  {
    Position(f, p);
    var q := p / SECTOR_SIZE;
    assert p == SECTOR_SIZE * q + p % SECTOR_SIZE && q == DIRECT_NO * (q / DIRECT_NO) + q % DIRECT_NO;
  }

  /** The entry the loop looks at is the one that names the byte's sector. */
  lemma EntryAt(d: seq<Sector>, f: File, refer: Sector, node: nat, idx: nat, ofs: nat, pos: nat)
    requires Disk(d) && Linked(d, f) && pos < SECTOR_SIZE * |f.data| && Cursor(d, f, refer, node, idx, ofs, pos)
    ensures pos / SECTOR_SIZE == DIRECT_NO * node + idx < |f.data| && pos % SECTOR_SIZE == ofs
    ensures idx < DIRECT_NO && |refer| == SECTOR_SIZE && Direct(refer, idx) == f.data[pos / SECTOR_SIZE] < |d|
  {
    var q := DIRECT_NO * node + idx;
    assert pos / SECTOR_SIZE == q && pos % SECTOR_SIZE == ofs;
    assert q / DIRECT_NO == node && q % DIRECT_NO == idx && Named(d, f, q);
  }

  /** A chunk inside one sector is a chunk of the file. */
  lemma ChunkOfFile(d: seq<Sector>, f: File, sector: nat, pos: nat, n: nat)
    requires Disk(d) && Linked(d, f) && pos + n <= SECTOR_SIZE * |f.data| && pos % SECTOR_SIZE + n <= SECTOR_SIZE
    requires pos / SECTOR_SIZE < |f.data| && f.data[pos / SECTOR_SIZE] == sector < |d|
    ensures d[sector][pos % SECTOR_SIZE..pos % SECTOR_SIZE + n] == Contents(d, f)[pos..pos + n]
  {
    var ofs := pos % SECTOR_SIZE;
    var l, r := d[sector][ofs..ofs + n], Contents(d, f)[pos..pos + n];
    forall i | 0 <= i < n ensures l[i] == r[i] {
      SameSector(pos, i);
      assert r[i] == Contents(d, f)[pos + i] == d[f.data[(pos + i) / SECTOR_SIZE]][(pos + i) % SECTOR_SIZE];
    }
  }

  lemma SameSector(pos: nat, i: nat)
    requires pos % SECTOR_SIZE + i < SECTOR_SIZE
    ensures (pos + i) / SECTOR_SIZE == pos / SECTOR_SIZE && (pos + i) % SECTOR_SIZE == pos % SECTOR_SIZE + i
  {
  }

  /** Every link but the last leads to the next node. */
  lemma NextNode(d: seq<Sector>, f: File, node: nat)
    requires Disk(d) && Linked(d, f) && node + 1 < |f.nodes|
    ensures Link(d[f.nodes[node]]) == f.nodes[node + 1] < |d|
  {
  }

  /** The node that `hops` links lead to, if none of them leaves the disk. */
  ghost function Hopped(d: seq<Sector>, refer: Sector, hops: nat): (r: Option<Sector>)
    requires Disk(d) && |refer| == SECTOR_SIZE
    ensures r.Some? ==> |r.value| == SECTOR_SIZE
    decreases hops
  {
    if hops == 0 then Some(refer)
    else if Link(refer) >= |d| then None
    else Hopped(d, d[Link(refer)], hops - 1)
  }

  /** Inside the file they lead from node to node. */
  lemma {:induction false} HopsInFile(d: seq<Sector>, f: File, i: nat, hops: nat)
    requires Disk(d) && Linked(d, f) && i + hops < |f.nodes|
    ensures f.nodes[i] < |d| && f.nodes[i + hops] < |d|
    ensures Hopped(d, d[f.nodes[i]], hops) == Some(d[f.nodes[i + hops]])
    decreases hops
  {
    if hops > 0 {
      NextNode(d, f, i);
      HopsInFile(d, f, i + 1, hops - 1);
    }
  }

  lemma StartInFile(d: seq<Sector>, u: seq<bool>, f: File, p: nat)
    requires Disk(d) && Stored(d, u, f) && p < f.length
    ensures Intact(d, f) && f.nodes != [] && f.nodes[0] < |d|
    ensures var node := p / (SECTOR_SIZE * DIRECT_NO);
      node < |f.nodes| && f.nodes[node] < |d| && Hopped(d, d[f.nodes[0]], node) == Some(d[f.nodes[node]]) &&
      Cursor(d, f, d[f.nodes[node]], node, p / SECTOR_SIZE % DIRECT_NO, p % SECTOR_SIZE, p)
  {
    FitsSectors(f.length);
    StoredFacts(d, u, f);
    hide Stored, Hopped, Linked;
    StartCursor(d, f, p);
    HopsInFile(d, f, 0, p / (SECTOR_SIZE * DIRECT_NO));
  }

  /** When the loop goes off the disk: at the end of a chunk in the last entry. */
  lemma WhenOff(d: seq<Sector>, f: File, refer: Sector, node: nat, idx: nat, ofs: nat, pos: nat, n: nat)
    requires Intact(d, f) && Cursor(d, f, refer, node, idx, ofs, pos) && 0 < n && ofs + n <= SECTOR_SIZE
    requires pos + n <= SECTOR_SIZE * |f.data|
    ensures |refer| == SECTOR_SIZE && (idx + 1 >= DIRECT_NO && Link(refer) >= |d| <==> RunsOff(d, f, pos + n))
    ensures RunsOff(d, f, pos + n) && ofs + n == SECTOR_SIZE ==> pos + n == SECTOR_SIZE * |f.data|
  {
    DataPerNode(f);
    if node + 1 < |f.nodes| {
      NextNode(d, f, node);
    }
  }

  /** Where the loop is after a chunk that reaches the end of its sector. */
  lemma NextCursor(d: seq<Sector>, f: File, refer: Sector, node: nat, idx: nat, ofs: nat, pos: nat, n: nat)
    requires Intact(d, f) && Cursor(d, f, refer, node, idx, ofs, pos)
    requires ofs + n == SECTOR_SIZE && pos + n < SECTOR_SIZE * |f.data|
    ensures idx + 1 < DIRECT_NO ==> Cursor(d, f, refer, node, idx + 1, 0, pos + n)
    ensures |refer| == SECTOR_SIZE && (idx + 1 == DIRECT_NO ==> Link(refer) < |d|)
    ensures idx + 1 == DIRECT_NO ==> Cursor(d, f, d[Link(refer)], node + 1, 0, 0, pos + n)
  {
    Position(f, pos + n);
    if node + 1 < |f.nodes| {
      NextNode(d, f, node);
    }
  }

  lemma DataPerNode(f: File)
    requires |f.nodes| == 1 + ExtraNodes(|f.data|)
    ensures |f.data| <= DIRECT_NO * |f.nodes|
  {
    NextEntryBound(|f.data|);
  }

  // ----- changing a sector of a file -----

  /** Only the data sectors of `f` differ. */
  ghost predicate OnlyData(d: seq<Sector>, d': seq<Sector>, f: File)
  {
    |d'| == |d| && forall s :: 0 <= s < |d| && s !in f.data ==> d'[s] == d[s]
  }

  lemma NodesAreNotData(f: File)
    requires Distinct(f.nodes + f.data)
    ensures forall i :: 0 <= i < |f.nodes| ==> f.nodes[i] !in f.data
  {
    var s := f.nodes + f.data;
    forall i, j | 0 <= i < |f.nodes| && 0 <= j < |f.data| ensures f.nodes[i] != f.data[j] {
      assert s[i] == f.nodes[i] && s[|f.nodes| + j] == f.data[j];
    }
  }

  lemma NodesKept(d: seq<Sector>, d': seq<Sector>, f: File)
    requires Disk(d) && Disk(d') && Linked(d, f) && OnlyData(d, d', f) && Distinct(f.nodes + f.data)
    ensures Linked(d', f)
    ensures forall i :: 0 <= i < |f.nodes| ==> d'[f.nodes[i]] == d[f.nodes[i]]
  {
    NodesAreNotData(f);
    assert forall i :: 0 <= i < |f.nodes| ==> d'[f.nodes[i]] == d[f.nodes[i]];
    forall j | 0 <= j < |f.data| ensures Named(d', f, j) {
      assert Named(d, f, j);
    }
  }

  /** One byte of the contents, before and after a data sector is patched. */
  lemma PatchedByte(d: seq<Sector>, d': seq<Sector>, f: File, q: nat, ofs: nat, chunk: seq<Byte>, p: nat)
    requires Disk(d) && Linked(d, f) && Distinct(f.nodes + f.data) && Disk(d') && Linked(d', f)
    requires q < |f.data| && ofs + |chunk| <= SECTOR_SIZE && p < SECTOR_SIZE * |f.data|
    requires f.data[q] < |d| && d' == d[f.data[q] := Overlay(d[f.data[q]], ofs, chunk)]
    ensures Contents(d', f)[p] ==
      if SECTOR_SIZE * q + ofs <= p < SECTOR_SIZE * q + ofs + |chunk| then chunk[p - (SECTOR_SIZE * q + ofs)]
      else Contents(d, f)[p]
  {
    var k := p / SECTOR_SIZE;
    assert Contents(d', f)[p] == d'[f.data[k]][p % SECTOR_SIZE] && Contents(d, f)[p] == d[f.data[k]][p % SECTOR_SIZE];
    if k != q {
      DistinctData(f, k, q);
      assert p < SECTOR_SIZE * q || SECTOR_SIZE * q + SECTOR_SIZE <= p;
    }
  }

  /** Patching one data sector overlays the patch on the contents. */
  lemma PatchSector(d: seq<Sector>, f: File, q: nat, ofs: nat, chunk: seq<Byte>)
    requires Disk(d) && Linked(d, f) && Distinct(f.nodes + f.data)
    requires q < |f.data| && ofs + |chunk| <= SECTOR_SIZE
    ensures f.data[q] < |d| && SECTOR_SIZE * q + SECTOR_SIZE <= SECTOR_SIZE * |f.data|
    ensures var d' := d[f.data[q] := Overlay(d[f.data[q]], ofs, chunk)];
      Disk(d') && Linked(d', f) && OnlyData(d, d', f) &&
      Overlaid(Contents(d', f), Contents(d, f), SECTOR_SIZE * q + ofs, chunk)
  {
    var s := f.data[q];
    var d' := d[s := Overlay(d[s], ofs, chunk)];
    NodesKept(d, d', f);
    assert SECTOR_SIZE * q + SECTOR_SIZE <= SECTOR_SIZE * |f.data|;
    hide Contents, Linked, Disk, Distinct, Overlay, Overlaid;
    var at := SECTOR_SIZE * q + ofs;
    var c, c' := Contents(d, f), Contents(d', f);
    forall p | 0 <= p < |c| ensures c'[p] == if at <= p < at + |chunk| then chunk[p - at] else c[p] {
      PatchedByte(d, d', f, q, ofs, chunk, p);
    }
    OverlaidPointwise(c', c, at, chunk);
  }

  lemma DistinctData(f: File, i: nat, j: nat)
    requires Distinct(f.nodes + f.data) && i < |f.data| && j < |f.data| && i != j
    ensures f.data[i] != f.data[j]
  {
    var s := f.nodes + f.data;
    assert s[|f.nodes| + i] == f.data[i] && s[|f.nodes| + j] == f.data[j];
  }

  /** How far inode_write_at has come: `done` bytes of `buffer` are in place. */
  ghost predicate Writing(d0: seq<Sector>, d: seq<Sector>, f: File, offset: nat, buffer: seq<Byte>, done: nat)
    requires Disk(d0) && Linked(d0, f)
  {
    && Disk(d) && Linked(d, f) && OnlyData(d0, d, f)
    && done <= |buffer| && offset + |buffer| <= SECTOR_SIZE * |f.data|
    && Overlaid(Contents(d, f), Contents(d0, f), offset, buffer[..done])
  }

  lemma WriteStep(d0: seq<Sector>, d: seq<Sector>, f: File, offset: nat, buffer: seq<Byte>, done: nat, n: nat, q: nat,
                  ofs: nat)
    requires Disk(d0) && Linked(d0, f) && Distinct(f.nodes + f.data) && Writing(d0, d, f, offset, buffer, done)
    requires done + n <= |buffer| && ofs + n <= SECTOR_SIZE && q < |f.data| && offset + done == SECTOR_SIZE * q + ofs
    ensures |d| == |d0| && f.data[q] < |d| && |d[f.data[q]]| == SECTOR_SIZE
    ensures Writing(d0, d[f.data[q] := Overlay(d[f.data[q]], ofs, buffer[done..done + n])], f, offset, buffer, done + n)
  {
    var c := Contents(d0, f);
    var d' := d[f.data[q] := Overlay(d[f.data[q]], ofs, buffer[done..done + n])];
    PatchSector(d, f, q, ofs, buffer[done..done + n]);
    OverlaidTwice(c, offset, buffer, done, n, Contents(d, f), Contents(d', f));
  }

  lemma WritingNothing(d: seq<Sector>, f: File, offset: nat, buffer: seq<Byte>)
    requires Disk(d) && Linked(d, f) && offset + |buffer| <= SECTOR_SIZE * |f.data|
    ensures Writing(d, d, f, offset, buffer, 0)
  {
    OverlaidPointwise(Contents(d, f), Contents(d, f), offset, buffer[..0]);
  }

  lemma WroteAll(d0: seq<Sector>, d: seq<Sector>, f: File, offset: nat, buffer: seq<Byte>, done: nat)
    requires Disk(d0) && Linked(d0, f) && Writing(d0, d, f, offset, buffer, done) && done == |buffer|
    ensures Disk(d) && Linked(d, f) && OnlyData(d0, d, f) && offset + |buffer| <= |Contents(d0, f)|
    ensures Contents(d, f) == Overlay(Contents(d0, f), offset, buffer)
  {
    assert buffer[..done] == buffer;
  }

  lemma StillIntact(d: seq<Sector>, f: File, refer: Sector, node: nat, idx: nat, ofs: nat, pos: nat, s: nat,
                    patched: Sector)
    requires Intact(d, f) && Cursor(d, f, refer, node, idx, ofs, pos)
    requires s < |d| && s in f.data && |patched| == SECTOR_SIZE
    ensures Intact(d[s := patched], f) && Disk(d[s := patched]) && Linked(d[s := patched], f)
    ensures Cursor(d[s := patched], f, refer, node, idx, ofs, pos)
  {
    NodesKept(d, d[s := patched], f);
  }

  class Volume {
    const cache: Cache     // every sector is read and written through it
    var used: seq<bool>    // the free map; sector 0, its own head, is never free

    /** The sectors as readers of the cache see them. */
    ghost function Data(): seq<Sector>
      reads cache, cache.slots
    {
      cache.Contents()
    }

    ghost predicate Valid()
      reads this, cache, cache.slots
    {
      cache.Valid() && Disk(Data()) && |used| == |Data()| && |Data()| > 0 && used[0]
    }

    constructor (cache: Cache, used: seq<bool>)
      requires cache.Valid() && |cache.disk| < 0x8000_0000 && |used| == |cache.disk| > 0 && used[0]
      ensures Valid() && this.cache == cache && this.used == used
    {
      this.cache, this.used := cache, used;
      ContentsAreSectors(cache.slots[..], cache.disk);
    }

    /** buffer_cache_read of a whole sector. */
    method Load(s: nat) returns (b: Sector)
      requires cache.Valid() && s < |Data()|
      modifies cache, cache.slots
      ensures cache.Valid() && Data() == old(Data()) && b == Data()[s]
    {
      hide Consistent;
      b := cache.Read(s, SECTOR_SIZE, 0);
    }

    /** buffer_cache_read of a part of a sector. */
    method LoadPart(s: nat, size: nat, offset: nat) returns (b: seq<Byte>)
      requires cache.Valid() && s < |Data()| && offset + size <= SECTOR_SIZE
      modifies cache, cache.slots
      ensures cache.Valid() && Data() == old(Data()) && |Data()[s]| == SECTOR_SIZE
      ensures b == Data()[s][offset..offset + size]
    {
      hide Consistent;
      b := cache.Read(s, size, offset);
    }

    /** buffer_cache_write of a whole sector. */
    method Save(s: nat, b: Sector)
      requires cache.Valid() && s < |Data()| && |b| == SECTOR_SIZE
      modifies cache, cache.slots
      ensures cache.Valid() && Data() == old(Data())[s := b]
    {
      hide Consistent, Logical;
      cache.Write(s, b, 0);
      assert Overlay(old(Data())[s], 0, b) == b;
    }

    /** buffer_cache_write_back: the files are on the disk itself. */
    method WriteBack()
      requires Valid()
      modifies cache
      ensures Valid() && Data() == old(Data()) && cache.disk == Data()
    {
      hide Consistent, Logical;
      cache.WriteBack();
    }

    /** Follows `hops` links from the head; `off` if one leads off the disk. */
    method Hop(data: Sector, hops: nat) returns (refer: Sector, off: bool)
      requires cache.Valid() && Disk(Data()) && |data| == SECTOR_SIZE
      modifies cache, cache.slots
      ensures cache.Valid() && Data() == old(Data()) && |refer| == SECTOR_SIZE
      ensures Hopped(Data(), data, hops) == if off then None else Some(refer)
    {
      hide Consistent, Logical, Link;
      ghost var d := Data();
      refer, off := data, false;
      var mok := hops;
      while mok > 0
        invariant cache.Valid() && Data() == d
        invariant 0 <= mok <= hops && |refer| == SECTOR_SIZE && Hopped(d, data, hops) == Hopped(d, refer, mok)
      {
        if Link(refer) >= |cache.disk| {
          return refer, true;
        }
        refer := Load(Link(refer));
        mok := mok - 1;
      }
    }

    /** The start of a loop iteration: which sector, and how much of it. */
    method Chunk(refer: Sector, directIdx: nat, sectorOfs: nat, left: nat, ghost node: nat, ghost pos: nat,
                 ghost f: File)
      returns (sector: nat, n: nat)
      requires Intact(Data(), f) && Cursor(Data(), f, refer, node, directIdx, sectorOfs, pos)
      requires 0 < left && pos + left <= SECTOR_SIZE * |f.data|
      ensures 0 < n <= left && (n < left ==> sectorOfs + n == SECTOR_SIZE)
      ensures pos / SECTOR_SIZE < |f.data| && sector == f.data[pos / SECTOR_SIZE] < |Data()|
      ensures pos == SECTOR_SIZE * (pos / SECTOR_SIZE) + sectorOfs
      ensures sectorOfs + n <= |Data()[sector]| == SECTOR_SIZE
      ensures Copied(Data()[sector][sectorOfs..sectorOfs + n], Contents(Data(), f), pos, pos + n)
    {
      EntryAt(Data(), f, refer, node, directIdx, sectorOfs, pos);
      sector := Direct(refer, directIdx);
      n := if left > SECTOR_SIZE then SECTOR_SIZE else left;
      if sectorOfs > 0 {
        n := Min(SECTOR_SIZE - sectorOfs, left);
      }
      ChunkOfFile(Data(), f, sector, pos, n);
    }

    /** The end of a loop iteration: to the next entry, or the next node, and
        `off` if its sector is not on the disk. */
    method Advance(refer: Sector, directIdx: nat, ghost node: nat, ghost ofs: nat, ghost pos: nat, ghost n: nat,
                   ghost f: File)
      returns (refer': Sector, directIdx': nat, off: bool, ghost node': nat)
      requires cache.Valid() && Intact(Data(), f) && Cursor(Data(), f, refer, node, directIdx, ofs, pos)
      requires 0 < n && ofs + n <= SECTOR_SIZE && pos + n <= SECTOR_SIZE * |f.data|
      modifies cache, cache.slots
      ensures cache.Valid() && Data() == old(Data()) && Disk(Data()) && Linked(Data(), f)
      ensures off <==> RunsOff(Data(), f, pos + n)
      ensures off && ofs + n == SECTOR_SIZE ==> pos + n == SECTOR_SIZE * |f.data|
      ensures ofs + n == SECTOR_SIZE && pos + n < SECTOR_SIZE * |f.data| ==>
        Cursor(Data(), f, refer', node', directIdx', 0, pos + n)
    {
      hide Consistent, Logical;
      ghost var d := Data();
      WhenOff(d, f, refer, node, directIdx, ofs, pos, n);
      if ofs + n == SECTOR_SIZE && pos + n < SECTOR_SIZE * |f.data| {
        NextCursor(d, f, refer, node, directIdx, ofs, pos, n);
      }
      refer', directIdx', node', off := refer, directIdx + 1, node, false;
      if directIdx' >= DIRECT_NO {
        if Link(refer) >= |cache.disk| {
          return refer, 0, true, node;
        }
        refer' := Load(Link(refer));
        directIdx' := 0;
        node' := node + 1;
      }
    }

    /** inode_read_at: exactly the part of the file that the request covers.  It
        goes off the disk exactly when that part ends in the last entry of a
        last node whose link leads there. */
    method ReadAt(data: Sector, size: nat, offset: nat, ghost f: File) returns (buffer: seq<Byte>, off: bool)
      requires Valid() && Stored(Data(), used, f) && data == Data()[f.nodes[0]]
      modifies cache, cache.slots
      ensures Valid() && Data() == old(Data())
      ensures buffer == Bytes(Data(), f)[Min(offset, f.length)..Min(offset + size, f.length)]
      ensures off <==> buffer != [] && RunsOff(Data(), f, Min(offset + size, f.length))
    {
      hide Consistent, Logical, Stored, Linked, Intact, Cursor, Contents, SectorCount, Distinct, Owns, RunsOff, Copied,
           ExtraNodes, Length, Hopped;
      ghost var d := Data();
      StoredFacts(d, used, f);
      FitsSectors(f.length);
      buffer, off := [], false;
      var length := Length(data);
      if offset >= length {
        return;
      }
      var left: nat := if length - offset > size then size else length - offset;
      StartInFile(d, used, f, offset);
      var refer, _ := Hop(data, offset / (SECTOR_SIZE * DIRECT_NO));
      buffer, off := ReadLoop(refer, offset / SECTOR_SIZE % DIRECT_NO, offset % SECTOR_SIZE, left,
                              offset / (SECTOR_SIZE * DIRECT_NO), offset, f);
      ReadSlice(buffer, Contents(d, f), length, offset, left);
    }

    method ReadLoop(start: Sector, startIdx: nat, startOfs: nat, size: nat,
                    ghost startNode: nat, ghost offset: nat, ghost f: File)
      returns (buffer: seq<Byte>, off: bool)
      requires cache.Valid() && Intact(Data(), f) && offset + size <= SECTOR_SIZE * |f.data|
      requires 0 < size ==> Cursor(Data(), f, start, startNode, startIdx, startOfs, offset)
      modifies cache, cache.slots
      ensures cache.Valid() && Data() == old(Data())
      ensures Disk(Data()) && Linked(Data(), f) && Copied(buffer, Contents(Data(), f), offset, offset + size)
      ensures off <==> size > 0 && RunsOff(Data(), f, offset + size)
    {
      ghost var d := Data();
      hide *;
      IntactFacts(d, f);
      buffer, off := [], false;
      var refer := start;
      var directIdx: nat, sectorOfs: nat, left: nat := startIdx, startOfs, size;
      ghost var node: nat, pos: nat := startNode, offset;
      ghost var all, end := Contents(d, f), offset + size;
      CopiedNothing(all, offset);
      while left > 0
        invariant cache.Valid() && Data() == d
        invariant offset <= pos && pos + left == end
        invariant Copied(buffer, all, offset, pos)
        invariant off <==> left < size && RunsOff(d, f, pos)
        invariant left > 0 ==> !off && Cursor(d, f, refer, node, directIdx, sectorOfs, pos)
      {
        var sector, n := Chunk(refer, directIdx, sectorOfs, left, node, pos, f);
        var chunk := LoadPart(sector, n, sectorOfs);
        CopiedMore(buffer, chunk, all, offset, pos, pos + n);
        buffer := buffer + chunk;
        refer, directIdx, off, node := Advance(refer, directIdx, node, sectorOfs, pos, n, f);
        left := left - n;
        sectorOfs := 0;
        pos := pos + n;
      }
    }

    /** The loop of inode_write_at: the sectors that the entries name take the
        buffer, up to one that is not on the disk, and no other sector changes. */
    method WriteLoop(start: Sector, startIdx: nat, startOfs: nat, buffer: seq<Byte>) returns (written: nat, off: bool)
      requires cache.Valid() && Disk(Data())
      requires |start| == SECTOR_SIZE && startIdx < DIRECT_NO && startOfs < SECTOR_SIZE
      modifies cache, cache.slots
      ensures cache.Valid() && Disk(Data()) && |Data()| == |old(Data())|
      ensures WalkWrite(old(Data()), start, startIdx, startOfs, buffer, 0) == (Data(), written, off)
      ensures var v := Visits(old(Data()), start, startIdx, startOfs, buffer);
        Astray(old(Data()), Data(), v, startOfs, buffer) && written == Reach(|v|, startOfs, |buffer|)
    {
      hide Consistent, Logical, WalkWrite, Visits, Astray, Overlay, Struck, Direct, Link;
      var refer := start;
      var directIdx: nat, sectorOfs: nat, left := startIdx, startOfs, buffer;
      written, off := 0, false;
      ghost var goal := WalkWrite(Data(), start, startIdx, startOfs, buffer, 0);
      WalkEffect(Data(), start, startIdx, startOfs, buffer, 0);
      while left != []
        invariant cache.Valid() && Disk(Data()) && |Data()| == |old(Data())|
        invariant |refer| == SECTOR_SIZE && directIdx < DIRECT_NO && sectorOfs < SECTOR_SIZE && !off
        invariant WalkWrite(Data(), refer, directIdx, sectorOfs, left, written) == goal
        decreases |left|
      {
        WalkStep(Data(), refer, directIdx, sectorOfs, left, written);
        var sector := Direct(refer, directIdx);
        if sector >= 0x8000_0000 {
          return;
        }
        if sector >= |cache.disk| {
          off := true;
          return;
        }
        var n := WriteChunk(refer, directIdx, sectorOfs, left);
        written, left, sectorOfs := written + n, left[n..], 0;
        directIdx := directIdx + 1;
        if directIdx >= DIRECT_NO {
          if Link(refer) >= |cache.disk| {
            off := true;
            return;
          }
          refer := Load(Link(refer));
          directIdx := 0;
        }
      }
      WalkStep(Data(), refer, directIdx, sectorOfs, left, written);
    }

    /** One iteration's write. */
    method WriteChunk(refer: Sector, directIdx: nat, sectorOfs: nat, left: seq<Byte>) returns (n: nat)
      requires cache.Valid() && Disk(Data()) && |refer| == SECTOR_SIZE && directIdx < DIRECT_NO
      requires sectorOfs < SECTOR_SIZE && left != [] && Direct(refer, directIdx) < |Data()|
      modifies cache, cache.slots
      ensures cache.Valid() && Data() == Struck(old(Data()), refer, directIdx, sectorOfs, left)
      ensures n == Min(SECTOR_SIZE - sectorOfs, |left|)
    {
      hide Consistent, Logical, Overlay, Direct;
      n := if |left| > SECTOR_SIZE then SECTOR_SIZE else |left|;
      if sectorOfs > 0 {
        n := Min(SECTOR_SIZE - sectorOfs, |left|);
      }
      cache.Write(Direct(refer, directIdx), left[..n], sectorOfs);
    }

    /** free_map_allocate of one sector: the first free one, or none. */
    method AllocateSector() returns (sector: Option<nat>)
      requires Valid()
      modifies this`used
      ensures Valid() && sector == Scan(old(used), 0, 1, false)
      ensures sector.None? ==> used == old(used) && Free(used) == 0
      ensures sector.Some? ==> sector.value < |Data()| && used == old(used)[sector.value := true]
      ensures sector.Some? ==> Taken(old(used), used, [sector.value]) && Free(used) + 1 == Free(old(used))
      ensures sector.Some? ==> Lowest(old(used), [sector.value])
    {
      sector := Scan(used, 0, 1, false);
      if sector.None? {
        if Free(used) > 0 {
          ghost var s := SomeFree(used);
          assert Group(used, s, 1, false);
        }
      } else {
        FreeAfterOne(used, sector.value);
        LowestOne(used, sector.value);
        TakenOne(used, sector.value);
        used := used[sector.value := true];
      }
    }

    /** The body of the loop of allocate_inode_disk. */
    method AllocateZeroed() returns (sector: Option<nat>)
      requires Valid()
      modifies this`used, cache, cache.slots
      ensures Valid() && |Data()| == |old(Data())| && (sector.Some? ==> sector.value < 0x8000_0000)
      ensures sector.None? ==> Free(old(used)) == 0
      ensures sector.Some? ==> sector.value < |old(Data())| && Data() == old(Data())[sector.value := Zeros()]
      ensures sector.Some? ==> Taken(old(used), used, [sector.value]) && Free(used) + 1 == Free(old(used))
      ensures sector.Some? ==> Lowest(old(used), [sector.value])
    {
      hide Consistent, Logical, Scan, Free, Taken, Lowest;
      sector := AllocateSector();
      if sector.Some? {
        Save(sector.value, Zeros());
      }
    }

    /** The loop: entries `start..stop` get zeroed sectors, as long as there are any. */
    method AllocateEntries(node: seq<Word>, h: nat, start: nat, stop: nat, ghost length: nat, ghost info: Word,
                           ghost was: seq<Word>)
      returns (ok: bool, node': seq<Word>, ghost dd: seq<nat>)
      requires Valid() && h < |Data()| && used[h] && start <= stop <= DIRECT_NO
      requires Filled(was, node, h, start, length, info, [])
      modifies this`used, cache, cache.slots
      ensures Valid() && |Data()| == |old(Data())| && (ok <==> Free(old(used)) >= stop - start)
      ensures ok ==> |dd| == stop - start && Free(used) == Free(old(used)) - |dd|
      ensures ok ==> Taken(old(used), used, dd) && Zeroed(old(Data()), Data(), h, [], dd) && Data()[h] == old(Data())[h]
      ensures ok ==> Filled(was, node', h, start, length, info, dd) && FirstFit(old(used), [], dd)
    {
      hide Consistent, Logical, Free, Taken, Zeroed, Filled, Disk, FirstFit, Lowest;
      ghost var d0, u0 := Data(), used;
      node', dd := node, [];
      NothingTaken(d0, u0, h);
      NodeSize(was, node, h, start, length, info, []);
      for i := start to stop
        invariant Valid() && |Data()| == |d0| && |dd| == i - start && Free(used) == Free(u0) - |dd| && |node'| == 128
        invariant Taken(u0, used, dd) && Zeroed(d0, Data(), h, [], dd) && Data()[h] == d0[h]
        invariant Filled(was, node', h, start, length, info, dd) && FirstFit(u0, [], dd)
      {
        ghost var d1, u1 := Data(), used;
        var sector := AllocateZeroed();
        if sector.None? {
          return false, node', dd;
        }
        TakenMore(u0, u1, used, dd, [sector.value]);
        FirstFitMore(u0, u1, used, dd, sector.value);
        ZeroedMore(d0, d1, u0, u1, used, h, dd, sector.value);
        FilledMore(was, node', h, start, length, info, dd, sector.value);
        node' := node'[3 + i := sector.value];
        dd := dd + [sector.value];
      }
      ok := true;
    }

    /** allocate_inode_disk, up to the first sector it cannot get: it gets all
        of them exactly when that many are free. */
    method AllocateInodeDisk(sectors: nat, h: nat, length: Word, start: nat, info: Word)
      returns (ok: bool, ghost nn: seq<nat>, ghost dd: seq<nat>)
      requires Valid() && h < |Data()| && used[h] && start <= DIRECT_NO
      modifies this`used, cache, cache.slots
      ensures Valid() && |Data()| == |old(Data())| && (ok <==> Free(old(used)) >= sectors + ExtraNodes(start + sectors))
      ensures ok ==> |dd| == sectors && Grown(old(Data()), old(used), Data(), used, h, start, length, nn, dd)
      ensures ok ==> FirstFit(old(used), nn, dd) && AllStamped(Data(), [h] + nn, length, info)
      decreases sectors + start, 0
    {
      hide Consistent, Logical, Grown, Taken, Zeroed, Filled, Chain, HeadSet, Entries, Free, ToBytes, ToWords, Last,
           Scan, ExtraNodes, FirstFit, Lowest, AllStamped, Stamped;
      ghost var d0, u0 := Data(), used;
      var b := Load(h);
      var was: seq<Word> := ToWords(b);
      FilledNothing(b, h, start, length, info);
      var node: seq<Word> := was[2 := length][0 := h][1 := info][127 := INODE_MAGIC];
      var stop: nat := if sectors + start > DIRECT_NO then DIRECT_NO else start + sectors;
      ExtraNodesStep(sectors + start);
      nn, dd := [], [];
      var node';
      ghost var direct;
      ok, node', direct := AllocateEntries(node, h, start, stop, length, info, was);
      if !ok {
        return;
      }
      NodeSize(was, node', h, start, length, info, direct);
      ghost var d1, u1 := Data(), used;
      if sectors + start > stop {
        var next := AllocateSector();
        if next.None? {
          return false, nn, dd;
        }
        ghost var more;
        ok, nn, more := AllocateRest(sectors + start - stop, h, next.value, node', length, start, info, direct, d0, u0, d1, u1);
        dd := direct + more;
      } else {
        GrownLast(d0, u0, d1, u1, h, start, length, info, direct, node');
        Save(h, ToBytes(node'));
        nn, dd := [], direct;
        OneStamped(Data(), h, length, info);
      }
    }

    /** The first node is full: it is linked to the next, where allocation goes on. */
    method AllocateRest(sectors: nat, h: nat, next: nat, node: seq<Word>, length: Word, start: nat, info: Word,
                        ghost direct: seq<nat>, ghost d0: seq<Sector>, ghost u0: seq<bool>,
                        ghost d1: seq<Sector>, ghost u1: seq<bool>)
      returns (ok: bool, ghost nn: seq<nat>, ghost more: seq<nat>)
      requires Valid() && sectors > 0 && Data() == d1 && next < |u1| == |d1| && !u1[next] && used == u1[next := true]
      requires Disk(d0) && h < |d0| == |u0| == |d1| && u0[h] && |node| == 128 && start + |direct| == DIRECT_NO
      requires Taken(u0, u1, direct) && Zeroed(d0, d1, h, [], direct) && d1[h] == d0[h]
      requires Filled(ToWords(d0[h]), node, h, start, length, info, direct) && FirstFit(u0, [], direct) && Lowest(u1, [next])
      modifies this`used, cache, cache.slots
      ensures Valid() && |Data()| == |old(Data())| && (ok <==> Free(old(used)) >= sectors + ExtraNodes(sectors))
      ensures ok ==> |more| == sectors && Grown(d0, u0, Data(), used, h, start, length, nn, direct + more)
      ensures ok ==> FirstFit(u0, nn, direct + more) && AllStamped(Data(), [h] + nn, length, info)
      decreases sectors, 1
    {
      hide Consistent, Logical, Grown, Taken, Zeroed, Filled, Chain, HeadSet, Entries, Free, ToBytes, ToWords, Last,
           Scan, ExtraNodes, FirstFit, Lowest, AllStamped, Stamped;
      FilledNode(d0[h], node, h, start, length, info, direct, next);
      Save(h, ToBytes(node[126 := next]));
      ghost var d2, u2 := Data(), used;
      ok, nn, more := AllocateInodeDisk(sectors, next, length, 0, info);
      if ok {
        GrownStep(d0, u0, d1, u1, d2, u2, Data(), used, h, start, length, direct, next, nn, more);
        GrownTakes(d2, u2, Data(), used, next, 0, length, nn, more);
        FirstFitStep(u0, u1, used, next, direct, nn, more);
        StillTaken(u0, u1, direct, h);
        MoreStamped(d2, u2, Data(), used, h, next, length, info, nn, more);
        nn := [next] + nn;
      }
    }

    /** inode_create: the new file has the sectors its length needs, all zero
        bytes, and owns what it took.  It is well formed exactly when its last
        node's link word was zero. */
    method Create(sector: nat, length: Word, info: Word) returns (ok: bool, ghost f: File)
      requires Valid() && sector < |Data()| && used[sector] && length < 0x8000_0000
      modifies this`used, cache, cache.slots
      ensures Valid() && (ok <==> Free(old(used)) >= SectorCount(length) + ExtraNodes(SectorCount(length)))
      ensures ok ==> Stored(Data(), used, f) && f.length == length && f.nodes[0] == sector
      ensures ok ==> ZeroFrom(Contents(Data(), f), 0) && Taken(old(used), used, f.nodes[1..] + f.data)
      ensures ok ==> Zeroed(old(Data()), Data(), sector, f.nodes[1..], f.data) && FirstFit(old(used), f.nodes[1..], f.data)
      ensures ok ==> var last := f.nodes[|f.nodes| - 1];
        EntriesKept(old(Data())[last], Data()[last], |f.data| - DIRECT_NO * (|f.nodes| - 1))
      ensures ok ==> AllStamped(Data(), f.nodes, length, info)
      ensures ok ==> (WellFormed(Data(), used, f) <==> Link(old(Data())[f.nodes[|f.nodes| - 1]]) == 0)
    {
      ghost var nn, dd;
      ok, nn, dd := AllocateInodeDisk(SectorCount(length), sector, length, 0, info);
      f := File([sector] + nn, dd, length);
      if ok {
        CreatedFile(old(Data()), old(used), Data(), used, sector, length, nn, dd);
        assert f.nodes[1..] == nn && f.nodes[|f.nodes| - 1] == Last(sector, nn);
      }
    }

    /** free_map_release and buffer_cache_release of one sector. */
    method GiveUp(s: nat)
      requires Valid() && 0 < s < |used|
      modifies this`used, cache, cache.slots
      ensures Valid() && Data() == old(Data()) && used == old(used)[s := false]
    {
      hide Consistent, Logical;
      used := used[s := false];
      var _ := cache.Release(s);
    }

    /** The loop of release_inode_disk. */
    method ReleaseEntries(node: Sector, n: nat, ghost dd: seq<nat>)
      requires Valid() && |dd| == n && Entries(node, 0, dd) && Distinct(dd)
      requires forall s :: s in dd ==> s < |used| && used[s] && s != 0
      modifies this`used, cache, cache.slots
      ensures Valid() && Data() == old(Data()) && Taken(used, old(used), dd)
    {
      hide Consistent, Logical;
      ghost var d := Data();
      for i := 0 to n
        invariant Valid() && Data() == d && Taken(used, old(used), dd[..i])
      {
        var s := Direct(node, i);
        assert dd[i] in dd;
        ReleaseOne(used, old(used), dd, i);
        GiveUp(s);
      }
      assert dd[..n] == dd;
    }

    /** release_inode_disk: exactly the nodes after the first and the data are freed. */
    method ReleaseInodeDisk(sectors: nat, h: nat, ghost nn: seq<nat>, ghost dd: seq<nat>)
      requires Valid() && |dd| == sectors && Chain(Data(), h, nn, 0, dd)
      requires Distinct(nn + dd) && (forall s :: s in nn + dd ==> s < |used| && used[s] && s != 0)
      modifies this`used, cache, cache.slots
      ensures Valid() && Data() == old(Data()) && Taken(used, old(used), nn + dd)
      decreases sectors
    {
      hide Consistent, Logical;
      ghost var d := Data();
      var node := Load(h);
      var n := if sectors > DIRECT_NO then DIRECT_NO else sectors;
      ghost var u0 := used;
      if sectors - n > 0 {
        ghost var rest, more := nn[1..], dd[n..];
        ReleaseParts(u0, nn, dd, n);
        ReleaseInodeDisk(sectors - n, Link(node), rest, more);
        ghost var u1 := used;
        GiveUp(Link(node));
        ghost var u2 := used;
        ReleaseEntries(node, n, dd[..n]);
        ReleaseJoined(u0, u1, u2, used, nn, dd, n);
      } else {
        assert nn + dd == dd;
        ReleaseEntries(node, n, dd);
      }
    }

    /** inode_close of a removed file: all its sectors are free again, and nothing else changed. */
    method ReleaseFile(data: Sector, ghost f: File)
      requires Valid() && Stored(Data(), used, f) && data == Data()[f.nodes[0]] && 0 !in f.nodes + f.data
      modifies this`used, cache, cache.slots
      ensures Valid() && Data() == old(Data()) && Taken(used, old(used), f.nodes + f.data)
    {
      hide Consistent, Logical, Stored, Linked, Chain, Taken, Owns, Distinct, WordAt, SectorCount;
      StoredFacts(Data(), used, f);
      FileParts(Data(), used, f);
      FileMembers(used, f);
      ghost var nn, u0 := f.nodes[1..], used;
      ReleaseInodeDisk(SectorCount(Length(data)), Self(data), nn, f.data);
      ghost var u1 := used;
      HeadTaken(u1, u0, f.nodes[0], nn + f.data);
      used := used[Self(data) := false];
      TakenMore(used, u1, u0, [f.nodes[0]], nn + f.data);
      assert [f.nodes[0]] + (nn + f.data) == f.nodes + f.data;
    }

    /** A file that is created and removed leaves the free map as it was, but
        for its head, whatever its length. */
    method CreateThenRelease(sector: nat, length: Word, info: Word) returns (ok: bool)
      requires Valid() && 0 < sector < |Data()| && used[sector] && length < 0x8000_0000
      modifies this`used, cache, cache.slots
      ensures Valid() && (ok <==> Free(old(used)) >= SectorCount(length) + ExtraNodes(SectorCount(length)))
      ensures ok ==> used == old(used)[sector := false]
    {
      ghost var u0 := used;
      ghost var f;
      ok, f := Create(sector, length, info);
      if ok {
        ghost var u1 := used;
        HeadAndRest(u0, u1, f, sector);
        hide *;
        StoredFacts(Data(), used, f);
        var data := Load(sector);
        ReleaseFile(data, f);
        ReleaseRestores(u0[sector := false], u1, used, f.nodes + f.data);
      }
    }

    /** Create a file of more than one node, remove it, and create an empty file:
        it gets the same head sector, with a link that it does not clear. */
    method StaleLink(length: Word, info: Word) returns (ghost f: File)
      requires Valid() && length < 0x8000_0000 && SectorCount(length) > DIRECT_NO
      requires Free(used) > SectorCount(length) + ExtraNodes(SectorCount(length))
      modifies this`used, cache, cache.slots
      ensures Valid() && Stored(Data(), used, f) && f.length == 0 && !WellFormed(Data(), used, f)
    {
      ghost var u0 := used;
      var sector := AllocateSector();
      var head := sector.value;
      var ok := MakeAndRemove(head, length, info);
      assert used == u0;
      sector := AllocateSector();
      hide Scan, Free, Zeroed, Taken, Contents;
      ok, f := Create(head, 0, info);
    }

    /** Its head's sector keeps the link to the second node. */
    method MakeAndRemove(head: nat, length: Word, info: Word) returns (ok: bool)
      requires Valid() && 0 < head < |Data()| && used[head] && length < 0x8000_0000 && SectorCount(length) > DIRECT_NO
      modifies this`used, cache, cache.slots
      ensures Valid() && (ok <==> Free(old(used)) >= SectorCount(length) + ExtraNodes(SectorCount(length)))
      ensures ok ==> |Data()| == |old(Data())| && used == old(used)[head := false] && Link(Data()[head]) != 0
    {
      ghost var u0 := used;
      ghost var f;
      ok, f := Create(head, length, info);
      if ok {
        ghost var u1 := used;
        HeadAndRest(u0, u1, f, head);
        SecondNode(Data(), used, f);
        hide *;
        StoredFacts(Data(), used, f);
        var data := Load(head);
        ReleaseFile(data, f);
        ReleaseRestores(u0[head := false], u1, used, f.nodes + f.data);
      }
    }

    /** inode_write_at, lines that find where the file ends: its last node, and
        the entry there (0 when the node is full).  A full last node that links
        somewhere leads there instead, and `off` if that is not on the disk. */
    method FindEnd(data: Sector, ghost f: File) returns (start: nat, last: nat, refer: Sector, off: bool)
      requires Valid() && Stored(Data(), used, f) && data == Data()[f.nodes[0]]
      modifies cache, cache.slots
      ensures Valid() && Data() == old(Data()) && (off <==> EndNode(Data(), f) >= |Data()|)
      ensures !off ==> start == (if Full(f) then 0 else NextEntry(|f.data|))
      ensures !off ==> last == EndNode(Data(), f) && refer == Data()[last]
    {
      hide Consistent, Logical, Stored, Linked, EndNode, NextEntry, SectorCount, Link, Self, Length, Full, ExtraNodes;
      ghost var d := Data();
      StoredFacts(d, used, f);
      ghost var k, end: nat := 0, |f.nodes| - 1;
      start, last, refer, off := SectorCount(Length(data)), Self(data), data, false;
      while start >= DIRECT_NO
        invariant cache.Valid() && Data() == d
        invariant start + DIRECT_NO * k == |f.data| && k <= end + 1
        invariant last == (if k <= end then f.nodes[k] else EndNode(d, f)) && last < |d| && refer == d[last]
      {
        EndStep(d, used, f, k, start);
        start := start - DIRECT_NO;
        if Link(refer) != 0 {
          last := Link(refer);
          if last >= |cache.disk| {
            off := true;
            return;
          }
          refer := Load(last);
        }
        k := k + 1;
      }
      EndFound(d, f, k, start);
    }

    /** inode_write_at, the node where growth goes on: the one that FindEnd gives,
        or, when the last node is full, a new one.  The link to it goes to the
        sector that the end node names as its own. */
    method Successor(data: Sector, ghost f: File) returns (ok: bool, off: bool, start: nat, prev: nat)
      requires Valid() && Stored(Data(), used, f) && data == Data()[f.nodes[0]]
      modifies this`used, cache, cache.slots
      ensures Valid() && |Data()| == |old(Data())| && Linked(old(Data()), f)
      ensures !ok ==> Data() == old(Data()) && NoSuccessor(old(Data()), old(used), used, f, off)
      ensures ok ==> !off && Succeeded(old(Data()), old(used), Data(), used, f, start, prev)
    {
      hide Consistent, Logical, Stored, Linked, NextEntry, WithWord, Scan, Free, EndsClean, Full, EndNode, Self, Length, Taken,
           Lowest, Link;
      ghost var d0, u0 := Data(), used;
      EndFacts(d0, u0, f);
      ok := false;
      var last, refer;
      start, last, refer, off := FindEnd(data, f);
      prev := last;
      if off {
        return;
      }
      if start == 0 && Length(data) > 0 {
        var sector := AllocateSector();
        if sector.None? {
          return;
        }
        prev := sector.value;
        if Self(refer) >= |cache.disk| {
          off := true;
          return;
        }
        Save(Self(refer), WithWord(refer, 126, prev));
      }
      ok := true;
    }

    /** inode_write_at, the growth branch: nodes and sectors for `add` more
        sectors.  A full last node gets a successor even when `add` is zero,
        and then that sector is lost. */
    method GrowNodes(data: Sector, add: nat, length: Word, info: Word, ghost f: File)
      returns (ok: bool, off: bool, ghost nn: seq<nat>, ghost dd: seq<nat>, ghost lost: seq<nat>)
      requires Valid() && Stored(Data(), used, f) && data == Data()[f.nodes[0]]
      modifies this`used, cache, cache.slots
      ensures Valid() && |Data()| == |old(Data())| && Linked(old(Data()), f)
      ensures EndsClean(old(Data()), f) ==>
        !off && GrewNodes(old(Data()), old(used), Data(), used, f, add, ok, nn, dd, lost)
      ensures EndsClean(old(Data()), f) && ok && Marked(old(Data()), f.nodes, info) ==> Marked(Data(), f.nodes + nn, info)
      ensures !EndsClean(old(Data()), f) ==>
        Misgrown(old(Data()), old(used), Data(), used, f, add, length, ok, off, nn, dd)
    {
      hide Consistent, Logical, Stored, Linked, Grown, Taken, ExtraNodes, SectorCount, Free, EndsClean, Misgrown, GrewNodes,
           Succeeded, NoSuccessor, FirstFit;
      ghost var d0, u0 := Data(), used;
      EndFacts(d0, u0, f);
      var start, prev;
      ok, off, start, prev := Successor(data, f);
      nn, dd, lost := [], [], [];
      if !ok {
        NotGrown(d0, u0, used, f, add, length, off);
        return;
      }
      ghost var d1, u1 := Data(), used;
      SuccessorFacts(d0, u0, d1, u1, f, start, prev);
      if add > 0 {
        ok, nn, dd := AllocateInodeDisk(add, prev, length, start, info);
      }
      if EndsClean(d0, f) {
        ghost var more := nn;
        nn, lost := GrownCleanly(d0, u0, d1, u1, Data(), used, f, start, prev, add, length, ok, more, dd);
        if ok && Marked(d0, f.nodes, info) {
          NodesMarked(d0, u0, d1, u1, Data(), used, f, start, prev, add, length, info, more, nn, dd);
        }
      } else {
        MisgrownBy(d0, u0, d1, u1, Data(), used, f, start, prev, add, length, ok, nn, dd);
      }
    }

    /** inode_write_at, the growth branch as a whole: the file reads as before,
        with zero bytes after its last sector up to the new length.  One sector
        is lost exactly when the last node was full and no data sector was needed. */
    method Extend(data: Sector, length: Word, ghost f: File)
      returns (ok: bool, off: bool, data': Sector, ghost f': File, ghost lost: seq<nat>)
      requires Valid() && Stored(Data(), used, f) && data == Data()[f.nodes[0]] && f.length < length < 0x8000_0000
      modifies this`used, cache, cache.slots
      ensures Valid() && |Data()| == |old(Data())| && Linked(old(Data()), f)
      ensures EndsClean(old(Data()), f) ==> !off && (ok <==> CanGrow(old(used), f.length, length))
      ensures EndsClean(old(Data()), f) && !ok && Full(f) && Free(old(used)) == 0 ==>
        Data() == old(Data()) && used == old(used)
      ensures EndsClean(old(Data()), f) && ok ==> GrownTo(old(Data()), old(used), Data(), used, f, f', lost)
      ensures ok ==> f'.nodes != [] && f'.nodes[0] == f.nodes[0] < |Data()| && data' == Data()[f.nodes[0]]
      ensures EndsClean(old(Data()), f) && ok ==> f'.length == length && (lost != [] <==> Leaks(f.length, length))
      ensures EndsClean(old(Data()), f) && ok && Marked(old(Data()), f.nodes, Info(data)) ==>
        Marked(Data(), f'.nodes, Info(data))
      ensures !EndsClean(old(Data()), f) ==> MisgrownTo(old(Data()), old(used), Data(), used, f, length, ok, off)
    {
      hide Consistent, Logical, Stored, Linked, Owns, GrownTo, Extended, Leaks, CanGrow, SectorCount, NextEntry, GrowthNodes,
           WithWord, WordAt, Free, Taken, Leaked, Full, EndsClean, Misgrown, MisgrownTo, Marked;
      ghost var d0, u0 := Data(), used;
      StoredFacts(Data(), used, f);
      GrowthFacts(used, f, length);
      var add := SectorCount(length) - SectorCount(Length(data));
      ghost var nn, dd;
      ok, off, nn, dd, lost := GrowNodes(data, add, length, WordAt(data, 1), f);
      data', f' := data, f;
      ghost var d1 := Data();
      if !ok {
        if !EndsClean(d0, f) {
          MisgrownStops(d0, u0, d1, used, f, length, off, nn, dd);
        }
        return;
      }
      data' := Load(Self(data));
      data' := WithWord(data', 2, length);
      Save(Self(data), data');
      assert Data() == Relengthed(d1, f.nodes[0], length);
      if Marked(d1, f.nodes + nn, Info(data)) {
        RelengthMarked(d1, f.nodes[0], length, f.nodes + nn, Info(data));
      }
      if !EndsClean(d0, f) {
        MisgrownLength(d0, u0, d1, used, f, length, off, nn, dd);
      } else if lost == [] {
        GrownToByExtension(d0, u0, d1, used, f, nn, dd, length);
        f' := File(f.nodes + nn, f.data + dd, length);
        GrownToFacts(d0, u0, Data(), used, f, f', lost);
      } else {
        GrownToByLeak(d0, u0, f, lost[0], length);
        LeakedForm(d0, f, lost[0], length);
        f' := f.(length := length);
        assert lost == [lost[0]] && f.nodes + nn == f.nodes;
        GrownToFacts(d0, u0, Data(), used, f, f', lost);
      }
    }

    /** inode_write_at.  A write at or past the end first grows the file, even
        when writes are denied; any other write stops at nothing but the last
        sector, so what it puts past the end is not part of the file.  It goes
        off the disk exactly when it fills the last entry of a last node whose
        link leads there, and then all is written.  A write that starts inside
        the file and does not fit its sectors strays. */
    method WriteAt(data: Sector, buffer: seq<Byte>, offset: nat, denied: bool, ghost f: File)
      returns (data': Sector, written: int, ok: bool, off: bool, ghost f': File, ghost lost: seq<nat>)
      requires Valid() && Stored(Data(), used, f) && data == Data()[f.nodes[0]] && offset + |buffer| < 0x8000_0000
      modifies this`used, cache, cache.slots
      ensures Valid() && |Data()| == |old(Data())| && Linked(old(Data()), f)
      ensures !Misgrows(old(Data()), f, offset, |buffer|) ==>
        (ok <==> Grows(f.length, offset, |buffer|) ==> CanGrow(old(used), f.length, offset + |buffer|))
      ensures !Misgrows(old(Data()), f, offset, |buffer|) && !ok && Full(f) && Free(old(used)) == 0 ==>
        written == -1 && Data() == old(Data()) && used == old(used)
      ensures Regular(old(Data()), f, offset, |buffer|) && ok ==> written == (if denied then 0 else |buffer|)
      ensures Regular(old(Data()), f, offset, |buffer|) && ok ==>
        WriteDone(old(Data()), old(used), Data(), used, f, f', lost, offset, buffer, denied) && data' == Data()[f'.nodes[0]]
      ensures Regular(old(Data()), f, offset, |buffer|) && ok ==>
        Bytes(Data(), f') == AfterWrite(old(Contents(Data(), f)), f.length, offset, buffer, denied)
      ensures Regular(old(Data()), f, offset, |buffer|) && ok ==>
        (WellFormed(Data(), used, f') <==>
         && lost == [] && Link(old(Data())[f'.nodes[|f'.nodes| - 1]]) == 0
         && ZeroPast(old(Contents(Data(), f)), f'.length, offset, buffer, denied))
      ensures Regular(old(Data()), f, offset, |buffer|) && ok && Marked(old(Data()), f.nodes, Info(data)) ==>
        Marked(Data(), f'.nodes, Info(data))
      ensures Regular(old(Data()), f, offset, |buffer|) && ok && buffer != [] ==>
        (off <==> !denied && RunsOff(Data(), f', offset + |buffer|))
      ensures !Fits(f, offset, |buffer|) && denied ==> written == 0 && Data() == old(Data()) && used == old(used)
      ensures !Fits(f, offset, |buffer|) && !denied ==>
        used == old(used) && Wrote(old(Data()), Data(), data, offset, buffer, written, off)
      ensures Misgrows(old(Data()), f, offset, |buffer|) ==>
        Misdone(old(Data()), old(used), Data(), used, f, offset, buffer, denied, ok, written, off)
    {
      hide Stored, Linked, GrownTo, Contents, Intact, AfterWrite, Taken, OutsideSame, CanGrow, Leaks, Writing, Cursor,
           Overlay, SectorCount, WriteDone, RunsOff, Free, EndsClean, Full, WellFormed, WalkWrite, Visits, Astray,
           Fits, Grows, NewLength, Consistent, Logical, ZeroFrom, ZeroPast, Link, Hopped, MisgrownTo, Misdone, Marked;
      ghost var d0, u0 := Data(), used;
      written := -1;
      StoredFacts(Data(), used, f);
      NotFitting(f, offset, |buffer|);
      data', ok, off, f', lost := Prepare(data, offset, |buffer|, f);
      ghost var d1 := Data();
      Misstopped(d0, u0, d1, used, f, offset, buffer, denied, off);
      if !ok {
        return;
      }
      if !Misgrows(d0, f, offset, |buffer|) {
        PreparedFacts(d0, u0, Data(), used, f, f', lost, offset, |buffer|);
        if |buffer| > 0 {
          HopsInFile(d1, f', 0, offset / (SECTOR_SIZE * DIRECT_NO));
        }
      }
      ghost var gone := off;
      var refer;
      refer, off := Hop(data', offset / (SECTOR_SIZE * DIRECT_NO));
      written := 0;
      if !denied && |buffer| > 0 {
        if !off {
          written, off := WriteLoop(refer, offset / SECTOR_SIZE % DIRECT_NO, offset % SECTOR_SIZE, buffer);
        }
        assert Wrote(d1, Data(), data', offset, buffer, written, off);
      }
      if Misgrows(d0, f, offset, |buffer|) {
        Miswrote(d0, u0, d1, gone, Data(), used, f, offset, buffer, denied, written, off);
      } else if denied || buffer == [] {
        NoWriteOutcome(d0, u0, Data(), used, f, f', lost, offset, buffer, denied);
        if Fits(f, offset, |buffer|) {
          WriteMeans(d0, u0, Data(), used, f, f', lost, offset, buffer, denied);
        }
      } else if Fits(f, offset, |buffer|) {
        FittingWrite(d0, u0, d1, used, Data(), f, f', lost, offset, buffer, written, off, Info(data));
        WriteMeans(d0, u0, Data(), used, f, f', lost, offset, buffer, denied);
      }
    }

    /** A file that just fills its first node grows by one byte: a sector is lost. */
    method LostSector(sector: nat, info: Word) returns (ghost f: File, ghost lost: seq<nat>)
      requires Valid() && sector < |Data()| && used[sector] && Link(Data()[sector]) == 0 && Free(used) > DIRECT_NO
      modifies this`used, cache, cache.slots
      ensures Valid() && Stored(Data(), used, f) && f.length == FULL_NODE + 1 && !WellFormed(Data(), used, f)
      ensures f.nodes == [sector] && |lost| == 1 && Taken(old(used), used, f.data + lost)
    {
      hide Stored, WellFormed, Linked, WriteDone, Free, Taken, Zeroed, Contents, Leaks, CanGrow, Grows, NewLength, EndsClean,
           SectorCount, ExtraNodes, AfterWrite, ZeroFrom, ZeroPast, RunsOff, Full, Link;
      FullNode(used);
      ghost var d0, u0 := Data(), used;
      var ok;
      ghost var g;
      ok, g := Create(sector, FULL_NODE, info);
      FreshFile(d0, u0, Data(), used, g, sector);
      FullNode(used);
      ghost var d1, u1 := Data(), used;
      var data', written, off;
      var data := Load(sector);
      data', written, ok, off, f, lost := WriteAt(data, [0], FULL_NODE, false, g);
      GrownByNothing(d1, u0, u1, Data(), used, g, f, lost, [0]);
    }

    /** The growth branch, when it is taken. */
    method Prepare(data: Sector, offset: nat, size: nat, ghost f: File)
      returns (data': Sector, ok: bool, off: bool, ghost f': File, ghost lost: seq<nat>)
      requires Valid() && Stored(Data(), used, f) && data == Data()[f.nodes[0]] && offset + size < 0x8000_0000
      modifies this`used, cache, cache.slots
      ensures Valid() && |Data()| == |old(Data())| && Linked(old(Data()), f)
      ensures Misgrows(old(Data()), f, offset, size) ==>
        MisgrownTo(old(Data()), old(used), Data(), used, f, offset + size, ok, off)
      ensures !Misgrows(old(Data()), f, offset, size) ==>
        !off && (ok <==> Grows(f.length, offset, size) ==> CanGrow(old(used), f.length, offset + size))
      ensures !Misgrows(old(Data()), f, offset, size) && !ok && Full(f) && Free(old(used)) == 0 ==>
        Data() == old(Data()) && used == old(used)
      ensures !Misgrows(old(Data()), f, offset, size) && ok ==>
        GrownTo(old(Data()), old(used), Data(), used, f, f', lost) && f'.length == NewLength(f.length, offset, size)
      ensures ok ==> f'.nodes != [] && f'.nodes[0] == f.nodes[0] < |Data()| && data' == Data()[f.nodes[0]]
      ensures !Grows(f.length, offset, size) ==> Data() == old(Data()) && used == old(used) && f' == f
      ensures !Misgrows(old(Data()), f, offset, size) && ok ==>
        (lost != [] <==> Grows(f.length, offset, size) && Leaks(f.length, offset + size))
      ensures !Misgrows(old(Data()), f, offset, size) && ok && Marked(old(Data()), f.nodes, Info(data)) ==>
        Marked(Data(), f'.nodes, Info(data))
    {
      ghost var d0, u0 := Data(), used;
      data', ok, off, f', lost := data, true, false, f, [];
      hide Stored, CanGrow, Leaks, GrownTo, Linked, SectorCount, EndsClean, Full, Free, MisgrownTo, Marked;
      StoredFacts(Data(), used, f);
      if offset >= Length(data) && size > 0 {
        ok, off, data', f', lost := Extend(data, offset + size, f);
      } else {
        GrownToSame(d0, u0, f);
      }
    }
  }

  lemma GrownTakes(d0: seq<Sector>, u0: seq<bool>, d: seq<Sector>, u: seq<bool>, h: nat, start: nat, length: nat,
                   nn: seq<nat>, dd: seq<nat>)
    requires Grown(d0, u0, d, u, h, start, length, nn, dd)
    ensures Taken(u0, u, nn + dd)
  {
  }

  lemma ExtraNodesStep(t: nat)
    ensures ExtraNodes(t) == if t > DIRECT_NO then 1 + ExtraNodes(t - DIRECT_NO) else 0
  {
    if t > DIRECT_NO {
      ExtraNodesNext(t);
    }
  }

  lemma NothingTaken(d: seq<Sector>, u: seq<bool>, h: nat)
    ensures Taken(u, u, []) && Zeroed(d, d, h, [], []) && FirstFit(u, [], [])
  {
  }

  lemma FirstFitMore(u0: seq<bool>, u: seq<bool>, u': seq<bool>, dd: seq<nat>, s: nat)
    requires Taken(u0, u, dd) && Taken(u, u', [s]) && FirstFit(u0, [], dd) && Lowest(u, [s])
    ensures FirstFit(u0, [], dd + [s])
  {
    assert [] + dd == dd && [] + (dd + [s]) == dd + [s];
    LowestMore(u0, u, u', dd, [s]);
    AscendingMore(dd, [s]);
  }

  lemma OneStamped(d: seq<Sector>, h: nat, length: nat, info: Word)
    requires h < |d| && Stamped(d[h], length, info)
    ensures AllStamped(d, [h] + [], length, info)
  {
    hide Stamped;
  }

  lemma StillTaken(u0: seq<bool>, u: seq<bool>, dd: seq<nat>, h: nat)
    requires Taken(u0, u, dd) && h < |u0| && u0[h]
    ensures h < |u| && u[h]
  {
  }

  /** The head keeps what it got while the later nodes are allocated. */
  lemma MoreStamped(d0: seq<Sector>, u0: seq<bool>, d: seq<Sector>, u: seq<bool>, h: nat, next: nat, length: nat,
                    info: Word, nn: seq<nat>, dd: seq<nat>)
    requires h < |d0| && h < |u0| && u0[h] && h != next && Stamped(d0[h], length, info)
    requires Grown(d0, u0, d, u, next, 0, length, nn, dd) && AllStamped(d, [next] + nn, length, info)
    ensures AllStamped(d, [h] + ([next] + nn), length, info)
  {
    assert h !in nn + dd;
    hide Stamped, Chain;
    assert d[h] == d0[h];
  }

  lemma NodeSize(was: seq<Word>, node: seq<Word>, h: nat, start: nat, length: nat, info: Word, dd: seq<nat>)
    requires Filled(was, node, h, start, length, info, dd)
    ensures |node| == 128
  {
  }

  lemma ZeroedMore(d0: seq<Sector>, d: seq<Sector>, u0: seq<bool>, u: seq<bool>, u': seq<bool>, h: nat, dd: seq<nat>,
                   s: nat)
    requires Zeroed(d0, d, h, [], dd) && s < |d| && h < |u0| && u0[h] && Taken(u0, u, dd) && Taken(u, u', [s])
    ensures Zeroed(d0, d[s := Zeros()], h, [], dd + [s]) && s != h
  {
    assert s in [s];
  }

  /** The length of a file whose last sector is the last entry of its first node. */
  const FULL_NODE: Word := 62465

  lemma FullNode(used: seq<bool>)
    ensures SectorCount(FULL_NODE) == SectorCount(FULL_NODE + 1) == DIRECT_NO && ExtraNodes(SectorCount(FULL_NODE)) == 0
    ensures Leaks(FULL_NODE, FULL_NODE + 1) && (CanGrow(used, FULL_NODE, FULL_NODE + 1) <==> Free(used) >= 1)
    ensures Grows(FULL_NODE, FULL_NODE, 1) && NewLength(FULL_NODE, FULL_NODE, 1) == FULL_NODE + 1
  {
    hide Free;
  }

  lemma FreshFile(d0: seq<Sector>, u0: seq<bool>, d: seq<Sector>, u: seq<bool>, f: File, sector: nat)
    requires Disk(d0) && Disk(d) && Stored(d, u, f) && f.length == FULL_NODE && Taken(u0, u, f.nodes[1..] + f.data)
    requires f.nodes[0] == sector < |d0| == |d| && Link(d0[sector]) == 0
    requires (WellFormed(d, u, f) <==> Link(d0[f.nodes[|f.nodes| - 1]]) == 0)
    requires Free(u0) > DIRECT_NO
    ensures f.nodes == [sector] && Taken(u0, u, f.data) && Free(u) >= 1 && EndsClean(d, f)
  {
    FullNode(u);
    assert f.nodes[1..] + f.data == f.data;
    FreeAfter(u0, u, f.data);
    hide Free, Taken, Contents;
  }

  lemma GrownByNothing(d1: seq<Sector>, u0: seq<bool>, u1: seq<bool>, d: seq<Sector>, u: seq<bool>, g: File, f: File,
                       lost: seq<nat>, buffer: seq<Byte>)
    requires Disk(d1) && Stored(d1, u1, g) && g.length == FULL_NODE && |g.nodes| == 1 && Taken(u0, u1, g.data)
    requires u1 != [] && u1[0] && |buffer| == 1
    requires WriteDone(d1, u1, d, u, g, f, lost, FULL_NODE, buffer, false)
    ensures Disk(d) && Stored(d, u, f) && f.length == FULL_NODE + 1 && !WellFormed(d, u, f)
    ensures f.nodes == g.nodes && |lost| == 1 && Taken(u0, u, f.data + lost)
  {
    FullNode(u);
    hide Contents, Leaks, CanGrow, Linked, Distinct;
    LinkedCount(d, f);
    assert f.nodes == g.nodes && f.data == g.data;
    assert f.nodes[|g.nodes|..] + f.data[|g.data|..] + lost == lost;
    assert lost == [lost[0]];
    TakenMore(u0, u1, u, g.data, lost);
  }

  /** The last node has no entry left. */
  predicate Full(f: File)
  {
    NextEntry(|f.data|) == DIRECT_NO
  }

  /** A full last node links to nothing, so that growth finds the end of the file. */
  ghost predicate EndsClean(d: seq<Sector>, f: File)
    requires Disk(d) && Linked(d, f)
  {
    Full(f) ==> Link(d[f.nodes[|f.nodes| - 1]]) == 0
  }

  /** A write grows the file, and does not find its end. */
  ghost predicate Misgrows(d: seq<Sector>, f: File, offset: nat, size: nat)
    requires Disk(d) && Linked(d, f)
  {
    Grows(f.length, offset, size) && !EndsClean(d, f)
  }

  /** The write ends in the sectors of the file, grown or not. */
  ghost predicate Regular(d: seq<Sector>, f: File, offset: nat, size: nat)
    requires Disk(d) && Linked(d, f)
  {
    Fits(f, offset, size) && !Misgrows(d, f, offset, size)
  }

  function NewLength(length: nat, offset: nat, size: nat): nat
  {
    if Grows(length, offset, size) then offset + size else length
  }

  /** What the sectors of a file hold after a write, `n` of them. */
  function WrittenContents(c: seq<Byte>, n: nat, offset: nat, buffer: seq<Byte>, denied: bool): (r: seq<Byte>)
    requires |c| <= SECTOR_SIZE * n
    ensures |r| == SECTOR_SIZE * n
  {
    var grown := c + seq(SECTOR_SIZE * n - |c|, _ => 0);
    if denied || offset + |buffer| > |grown| then grown else Overlay(grown, offset, buffer)
  }

  /** From `f` to `f'`: its sectors hold the written contents, it owns what was
      taken but for `lost`, and nothing else on the disk changed. */
  ghost predicate WriteDone(d0: seq<Sector>, u0: seq<bool>, d: seq<Sector>, u: seq<bool>, f: File, f': File,
                            lost: seq<nat>,
                            offset: nat, buffer: seq<Byte>, denied: bool)
    requires Disk(d0) && Linked(d0, f)
  {
    && Disk(d) && Stored(d, u, f') && f.nodes <= f'.nodes && f.data <= f'.data
    && f'.length == NewLength(f.length, offset, |buffer|)
    && Contents(d, f') == WrittenContents(Contents(d0, f), |f'.data|, offset, buffer, denied)
    && OutsideSame(d0, d, f') && Taken(u0, u, f'.nodes[|f.nodes|..] + f'.data[|f.data|..] + lost)
    && |lost| <= 1 && (lost != [] <==> Grows(f.length, offset, |buffer|) && Leaks(f.length, offset + |buffer|))
    && var last := f'.nodes[|f'.nodes| - 1]; Link(d[last]) == if lost == [] then Link(d0[last]) else lost[0]
  }

  // ----- writes that do not fit -----

  /** A write from inside the file ends in its sectors. */
  predicate Fits(f: File, offset: nat, size: nat)
  {
    offset < f.length ==> offset + size <= SECTOR_SIZE * |f.data|
  }

  /** What inode_write_at makes of disk `d0` from the node that its hops from the
      head lead to, and the entry of byte `offset` there, on. */
  ghost predicate Wrote(d0: seq<Sector>, d: seq<Sector>, head: Sector, offset: nat, buffer: seq<Byte>, written: int,
                        off: bool)
    requires Disk(d0) && |head| == SECTOR_SIZE
  {
    var r := Hopped(d0, head, offset / (SECTOR_SIZE * DIRECT_NO));
    if r.None? then d == d0 && written == 0 && off
    else WalkWrite(d0, r.value, offset / SECTOR_SIZE % DIRECT_NO, offset % SECTOR_SIZE, buffer, 0) == (d, written, off)
  }

  /** As long as the buffer fits the sectors of the file, the loop overlays the
      contents with it, and leaves the disk exactly when it runs off the end. */
  lemma {:induction false} WriteOn(d0: seq<Sector>, d: seq<Sector>, f: File, refer: Sector, node: nat, idx: nat, ofs: nat,
                                   offset: nat, buffer: seq<Byte>, done: nat)
    requires Intact(d, f) && Disk(d0) && Linked(d0, f) && Writing(d0, d, f, offset, buffer, done) && done < |buffer|
    requires Cursor(d, f, refer, node, idx, ofs, offset + done)
    ensures |refer| == SECTOR_SIZE && idx < DIRECT_NO && ofs < SECTOR_SIZE
    ensures var r := WalkWrite(d, refer, idx, ofs, buffer[done..], done);
      Writing(d0, r.0, f, offset, buffer, |buffer|) && Linked(r.0, f) && r.1 == |buffer| &&
      (r.2 <==> RunsOff(r.0, f, offset + |buffer|))
    decreases |buffer| - done
  {
    hide Intact, Writing, WalkWrite, Struck, Linked, RunsOff, Direct, Link;
    var pos, rest := offset + done, buffer[done..];
    var n := Min(SECTOR_SIZE - ofs, |rest|);
    OneChunk(d0, d, f, refer, node, idx, ofs, offset, buffer, done, n);
    var d1 := Struck(d, refer, idx, ofs, rest);
    assert rest[n..] == buffer[done + n..];
    WalkStep(d, refer, idx, ofs, rest, done);
    if n < |rest| {
      NextCursor(d1, f, refer, node, idx, ofs, pos, n);
      if idx + 1 < DIRECT_NO {
        WriteOn(d0, d1, f, refer, node, idx + 1, 0, offset, buffer, done + n);
      } else {
        WriteOn(d0, d1, f, d1[Link(refer)], node + 1, 0, 0, offset, buffer, done + n);
      }
    } else if idx + 1 < DIRECT_NO {
      WalkStep(d1, refer, idx + 1, 0, rest[n..], done + n);
    } else if Link(refer) < |d1| {
      WalkStep(d1, d1[Link(refer)], 0, 0, rest[n..], done + n);
    }
  }

  lemma OneChunk(d0: seq<Sector>, d: seq<Sector>, f: File, refer: Sector, node: nat, idx: nat, ofs: nat, offset: nat,
                 buffer: seq<Byte>, done: nat, n: int)
    requires Intact(d, f) && Disk(d0) && Linked(d0, f) && Writing(d0, d, f, offset, buffer, done) && done < |buffer|
    requires Cursor(d, f, refer, node, idx, ofs, offset + done) && n == Min(SECTOR_SIZE - ofs, |buffer| - done)
    ensures |refer| == SECTOR_SIZE && idx < DIRECT_NO && ofs < SECTOR_SIZE && Disk(d) && Direct(refer, idx) < |d|
    ensures Direct(refer, idx) < 0x8000_0000 && 0 < n && (n < |buffer| - done ==> ofs + n == SECTOR_SIZE)
    ensures offset + |buffer| <= SECTOR_SIZE * |f.data|
    ensures var d1 := Struck(d, refer, idx, ofs, buffer[done..]);
      Intact(d1, f) && Disk(d1) && Linked(d1, f) && Writing(d0, d1, f, offset, buffer, done + n) && |d1| == |d| &&
      Cursor(d1, f, refer, node, idx, ofs, offset + done) &&
      (idx + 1 >= DIRECT_NO && Link(refer) >= |d1| <==> RunsOff(d1, f, offset + done + n))
  {
    var pos, rest := offset + done, buffer[done..];
    var q := pos / SECTOR_SIZE;
    EntryAt(d, f, refer, node, idx, ofs, pos);
    IntactFacts(d, f);
    hide Intact, Writing, Cursor, WalkWrite, Struck, Linked, RunsOff, Overlay, Distinct, Direct, Link;
    WriteStep(d0, d, f, offset, buffer, done, n, q, ofs);
    StruckAt(d, refer, idx, ofs, rest);
    assert rest[..n] == buffer[done..done + n];
    var d1 := Struck(d, refer, idx, ofs, rest);
    assert d1 == d[f.data[q] := d1[f.data[q]]];
    StillIntact(d, f, refer, node, idx, ofs, pos, f.data[q], d1[f.data[q]]);
    WhenOff(d1, f, refer, node, idx, ofs, pos, n);
  }

  lemma InFile(d: seq<Sector>, f: File, offset: nat, buffer: seq<Byte>, d': seq<Sector>, written: int, off: bool)
    requires Intact(d, f) && Disk(d) && Linked(d, f) && buffer != [] && offset + |buffer| <= SECTOR_SIZE * |f.data|
    requires f.nodes[0] < |d| && Wrote(d, d', d[f.nodes[0]], offset, buffer, written, off)
    ensures Writing(d, d', f, offset, buffer, |buffer|) && Disk(d') && Linked(d', f) && written == |buffer|
    ensures off <==> RunsOff(d', f, offset + |buffer|)
  {
    hide Intact, Writing, Cursor, WalkWrite, Linked, RunsOff;
    StartCursor(d, f, offset);
    WritingNothing(d, f, offset, buffer);
    var node := offset / (SECTOR_SIZE * DIRECT_NO);
    HopsInFile(d, f, 0, node);
    WriteOn(d, d, f, d[f.nodes[node]], node, offset / SECTOR_SIZE % DIRECT_NO, offset % SECTOR_SIZE, offset, buffer, 0);
    assert buffer[0..] == buffer;
  }

  lemma FittingWrite(d0: seq<Sector>, u0: seq<bool>, d1: seq<Sector>, u: seq<bool>, d: seq<Sector>, f: File, f': File,
                     lost: seq<nat>, offset: nat, buffer: seq<Byte>, written: int, off: bool, info: Word)
    requires Disk(d0) && Linked(d0, f) && GrownTo(d0, u0, d1, u, f, f', lost)
    requires f'.length == NewLength(f.length, offset, |buffer|)
    requires lost != [] <==> Grows(f.length, offset, |buffer|) && Leaks(f.length, offset + |buffer|)
    requires Intact(d1, f') && Disk(d1) && Linked(d1, f') && buffer != [] && offset + |buffer| <= SECTOR_SIZE * |f'.data|
    requires f'.nodes != [] && f'.nodes[0] < |d1| && Wrote(d1, d, d1[f'.nodes[0]], offset, buffer, written, off)
    ensures WriteDone(d0, u0, d, u, f, f', lost, offset, buffer, false) && written == |buffer| && Disk(d) && Linked(d, f')
    ensures f'.nodes[0] < |d| == |d1| && d[f'.nodes[0]] == d1[f'.nodes[0]]
    ensures off <==> RunsOff(d, f', offset + |buffer|)
    ensures Marked(d1, f'.nodes, info) ==> Marked(d, f'.nodes, info)
  {
    hide Linked, GrownTo, Intact, Writing, WriteDone, RunsOff, Grows, Leaks, NewLength, Marked, Wrote;
    InFile(d1, f', offset, buffer, d, written, off);
    WriteOutcome(d0, u0, d1, u, d, f, f', lost, offset, buffer);
    if Marked(d1, f'.nodes, info) {
      SameMarked(d1, d, f', info);
    }
  }

  lemma GrownToSame(d: seq<Sector>, u: seq<bool>, f: File)
    requires Disk(d) && Stored(d, u, f)
    ensures GrownTo(d, u, d, u, f, f, [])
  {
    assert f.nodes[|f.nodes|..] + f.data[|f.data|..] + [] == [];
  }

  lemma NotFitting(f: File, offset: nat, size: nat)
    requires |f.data| == SectorCount(f.length)
    ensures !Fits(f, offset, size) ==> size > 0 && !Grows(f.length, offset, size)
    ensures Grows(f.length, offset, size) ==> size > 0
  {
    FitsSectors(f.length);
  }

  lemma PreparedFacts(d0: seq<Sector>, u0: seq<bool>, d: seq<Sector>, u: seq<bool>, f: File, f': File, lost: seq<nat>,
                      offset: nat, size: nat)
    requires Disk(d0) && Linked(d0, f) && GrownTo(d0, u0, d, u, f, f', lost)
    requires f'.length == NewLength(f.length, offset, size) && |f.data| == SectorCount(f.length)
    ensures Intact(d, f') && Disk(d) && Linked(d, f') && f'.nodes != [] && f'.nodes[0] < |d|
    ensures Length(d[f'.nodes[0]]) == f'.length && |f'.data| == SectorCount(f'.length)
    ensures size > 0 ==> offset < SECTOR_SIZE * |f'.data| && offset / (SECTOR_SIZE * DIRECT_NO) < |f'.nodes|
    ensures size > 0 ==> (Fits(f, offset, size) <==> offset + size <= SECTOR_SIZE * |f'.data|)
  {
    FitsSectors(f'.length);
    if size > 0 {
      Position(f', offset);
    }
  }

  lemma WriteOutcome(d0: seq<Sector>, u0: seq<bool>, d1: seq<Sector>, u: seq<bool>, d: seq<Sector>, f: File, f': File,
                     lost: seq<nat>,
                     offset: nat, buffer: seq<Byte>)
    requires Disk(d0) && Linked(d0, f) && GrownTo(d0, u0, d1, u, f, f', lost)
    requires f'.length == NewLength(f.length, offset, |buffer|)
    requires lost != [] <==> Grows(f.length, offset, |buffer|) && Leaks(f.length, offset + |buffer|)
    requires Disk(d1) && Linked(d1, f') && Writing(d1, d, f', offset, buffer, |buffer|)
    ensures WriteDone(d0, u0, d, u, f, f', lost, offset, buffer, false)
    ensures Disk(d) && f'.nodes != [] && f'.nodes[0] < |d| == |d1| && d[f'.nodes[0]] == d1[f'.nodes[0]]
    ensures SameNodes(d1, d, f')
  {
    NodesKept(d1, d, f');
    WroteAll(d1, d, f', offset, buffer, |buffer|);
    hide Contents, Linked, Leaks, Link, Distinct, Overlay;
    ZeroExtendedForm(Contents(d0, f), Contents(d1, f'));
  }

  ghost predicate SameNodes(d: seq<Sector>, d': seq<Sector>, f: File)
  {
    |d'| == |d| && forall i :: 0 <= i < |f.nodes| ==> f.nodes[i] < |d| && d'[f.nodes[i]] == d[f.nodes[i]]
  }

  lemma SameMarked(d: seq<Sector>, d': seq<Sector>, f: File, info: Word)
    requires SameNodes(d, d', f) && Marked(d, f.nodes, info)
    ensures Marked(d', f.nodes, info)
  {
    hide Info, Magic;
  }

  lemma ZeroExtendedForm(c: seq<Byte>, c': seq<Byte>)
    requires ZeroExtended(c, c')
    ensures c' == c + seq(|c'| - |c|, _ => 0)
  {
  }

  lemma NoWriteOutcome(d0: seq<Sector>, u0: seq<bool>, d: seq<Sector>, u: seq<bool>, f: File, f': File, lost: seq<nat>,
                       offset: nat, buffer: seq<Byte>, denied: bool)
    requires Disk(d0) && Linked(d0, f) && GrownTo(d0, u0, d, u, f, f', lost)
    requires f'.length == NewLength(f.length, offset, |buffer|)
    requires lost != [] <==> Grows(f.length, offset, |buffer|) && Leaks(f.length, offset + |buffer|)
    requires denied || buffer == []
    ensures WriteDone(d0, u0, d, u, f, f', lost, offset, buffer, denied)
  {
    hide Linked, Leaks, Link, Contents;
    ZeroExtendedForm(Contents(d0, f), Contents(d, f'));
    var c := Contents(d, f');
    if offset <= |c| {
      assert Overlay(c, offset, []) == c;
    }
  }

  /** What that means for the bytes of the file, and for its form. */
  lemma WriteMeans(d0: seq<Sector>, u0: seq<bool>, d: seq<Sector>, u: seq<bool>, f: File, f': File, lost: seq<nat>,
                   offset: nat, buffer: seq<Byte>, denied: bool)
    requires Disk(d0) && Stored(d0, u0, f) && WriteDone(d0, u0, d, u, f, f', lost, offset, buffer, denied)
    requires buffer != [] ==> offset + |buffer| <= SECTOR_SIZE * |f'.data|
    requires u0 != [] && u0[0]
    ensures f.length <= |Contents(d0, f)| && f'.length <= |Contents(d, f')| && f'.nodes != []
    ensures Bytes(d, f') == AfterWrite(Contents(d0, f), f.length, offset, buffer, denied)
    ensures WellFormed(d, u, f') <==>
      && lost == [] && Link(d0[f'.nodes[|f'.nodes| - 1]]) == 0
      && ZeroPast(Contents(d0, f), f'.length, offset, buffer, denied)
  {
    FitsSectors(f.length);
    FitsSectors(f'.length);
    LinkedCount(d, f');
    if lost != [] {
      assert lost[0] in f'.nodes[|f.nodes|..] + f'.data[|f.data|..] + lost;
    }
    hide Contents, Linked, Leaks, Link, Distinct, Overlay, Taken, OutsideSame, Owns, Length, SectorCount,
         WrittenContents, AfterWrite, ZeroFrom, ZeroPast;
    WrittenBytes(Contents(d0, f), |f'.data|, f.length, offset, buffer, denied);
    WrittenTail(Contents(d0, f), |f'.data|, f.length, offset, buffer, denied);
  }

  lemma WrittenBytes(c: seq<Byte>, n: nat, length: nat, offset: nat, buffer: seq<Byte>, denied: bool)
    requires length <= |c| <= SECTOR_SIZE * n && NewLength(length, offset, |buffer|) <= SECTOR_SIZE * n
    requires buffer != [] ==> offset + |buffer| <= SECTOR_SIZE * n
    ensures WrittenContents(c, n, offset, buffer, denied)[..NewLength(length, offset, |buffer|)] ==
            AfterWrite(c, length, offset, buffer, denied)
  {
    var m := NewLength(length, offset, |buffer|);
    var w, r := WrittenContents(c, n, offset, buffer, denied), AfterWrite(c, length, offset, buffer, denied);
    AfterLength(c, length, offset, buffer, denied);
    hide WrittenContents, AfterWrite, NewLength;
    forall p | 0 <= p < m ensures w[p] == r[p] {
      WrittenByte(c, n, offset, buffer, denied, p);
      AfterByte(c, length, offset, buffer, denied, p);
    }
    assert w[..m] == r;
  }

  /** Byte `p` after a write. */
  function ByteAfter(c: seq<Byte>, offset: nat, buffer: seq<Byte>, denied: bool, p: nat): Byte
  {
    if !denied && offset <= p < offset + |buffer| then buffer[p - offset] else if p < |c| then c[p] else 0
  }

  lemma WrittenByte(c: seq<Byte>, n: nat, offset: nat, buffer: seq<Byte>, denied: bool, p: nat)
    requires |c| <= SECTOR_SIZE * n && (buffer != [] ==> offset + |buffer| <= SECTOR_SIZE * n) && p < SECTOR_SIZE * n
    ensures WrittenContents(c, n, offset, buffer, denied)[p] == ByteAfter(c, offset, buffer, denied, p)
  {
  }

  lemma AfterByte(c: seq<Byte>, length: nat, offset: nat, buffer: seq<Byte>, denied: bool, p: nat)
    requires length <= |c| && p < |AfterWrite(c, length, offset, buffer, denied)|
    ensures AfterWrite(c, length, offset, buffer, denied)[p] == ByteAfter(c, offset, buffer, denied, p)
  {
  }

  lemma AfterLength(c: seq<Byte>, length: nat, offset: nat, buffer: seq<Byte>, denied: bool)
    requires length <= |c|
    ensures |AfterWrite(c, length, offset, buffer, denied)| == NewLength(length, offset, |buffer|)
  {
  }

  /** Past `length` the write leaves zeros: those of the buffer, if it goes there,
      and those of the contents `c` otherwise. */
  ghost predicate ZeroPast(c: seq<Byte>, length: nat, offset: nat, buffer: seq<Byte>, denied: bool)
  {
    if denied || buffer == [] || offset + |buffer| <= length then ZeroFrom(c, length)
    else offset <= length && ZeroFrom(buffer, length - offset) && ZeroFrom(c, offset + |buffer|)
  }

  lemma WrittenTail(c: seq<Byte>, n: nat, length: nat, offset: nat, buffer: seq<Byte>, denied: bool)
    requires |c| <= SECTOR_SIZE * n && (buffer != [] ==> offset + |buffer| <= SECTOR_SIZE * n)
    requires Grows(length, offset, |buffer|) || |c| == SECTOR_SIZE * n
    ensures var m := NewLength(length, offset, |buffer|);
      ZeroFrom(WrittenContents(c, n, offset, buffer, denied), m) <==> ZeroPast(c, m, offset, buffer, denied)
  {
    var w, m := WrittenContents(c, n, offset, buffer, denied), NewLength(length, offset, |buffer|);
    forall p | m <= p < |w| ensures w[p] == ByteAfter(c, offset, buffer, denied, p) {
      WrittenByte(c, n, offset, buffer, denied, p);
    }
    hide WrittenContents;
    if denied || buffer == [] || offset + |buffer| <= m {
      assert ZeroFrom(w, m) ==> forall p :: m <= p < |c| ==> w[p] == c[p];
    } else {
      assert ZeroFrom(w, m) ==> forall p :: m - offset <= p < |buffer| ==> w[offset + p] == buffer[p];
      assert ZeroFrom(w, m) ==> forall p :: offset + |buffer| <= p < |c| ==> w[p] == c[p];
    }
  }

  predicate Grows(length: nat, offset: nat, size: nat)
  {
    offset >= length && size > 0
  }

  /** What a write makes of the bytes of a file whose sectors hold `c`.  When the
      file grows, what its last sector held past the old end is in the new one. */
  function AfterWrite(c: seq<Byte>, length: nat, offset: nat, buffer: seq<Byte>, denied: bool): (r: seq<Byte>)
    requires length <= |c|
  {
    var n := NewLength(length, offset, |buffer|);
    var grown := if n <= |c| then c[..n] else c + seq(n - |c|, _ => 0);
    if denied || offset >= n then grown
    else Overlay(grown, offset, buffer[..Min(|buffer|, n - offset)])
  }

  predicate CanGrow(used: seq<bool>, length: nat, newLength: nat)
  {
    Free(used) + SectorCount(length) >=
    SectorCount(newLength) + GrowthNodes(SectorCount(length), AddedSectors(length, newLength))
  }

  function AddedSectors(length: nat, newLength: nat): nat
  {
    if SectorCount(newLength) >= SectorCount(length) then SectorCount(newLength) - SectorCount(length) else 0
  }

  lemma GrowthFacts(used: seq<bool>, f: File, length: nat)
    requires |f.data| == SectorCount(f.length) && f.length <= length
    ensures SectorCount(f.length) <= SectorCount(length)
    ensures var add := SectorCount(length) - SectorCount(f.length);
      && (CanGrow(used, f.length, length) <==> Free(used) >= add + GrowthNodes(|f.data|, add))
      && (Leaks(f.length, length) <==> Full(f) && add == 0)
  {
  }

  lemma GrownToFacts(d0: seq<Sector>, u0: seq<bool>, d: seq<Sector>, u: seq<bool>, f: File, f': File, lost: seq<nat>)
    requires Disk(d0) && Linked(d0, f) && GrownTo(d0, u0, d, u, f, f', lost) && |u0| == |d0| > 0 && u0[0]
    ensures Disk(d) && |d| == |d0| == |u| && u[0] && f'.nodes != [] && f'.nodes[0] == f.nodes[0] && f.nodes != []
  {
  }

  /** How many nodes growing `t` data sectors by `add` takes. */
  function GrowthNodes(t: nat, add: nat): nat
  {
    if NextEntry(t) == DIRECT_NO then 1 + ExtraNodes(add) else ExtraNodes(NextEntry(t) + add)
  }

  /** Where growth takes the file to end: its last node, or where that leads. */
  ghost function EndNode(d: seq<Sector>, f: File): nat
    requires Disk(d) && Linked(d, f)
  {
    var last := f.nodes[|f.nodes| - 1];
    if EndsClean(d, f) then last else Link(d[last])
  }

  /** The last node is linked to a sector that is taken for nothing. */
  ghost predicate Relinks(d0: seq<Sector>, u0: seq<bool>, d: seq<Sector>, u: seq<bool>, f: File, lost: seq<nat>)
    requires Disk(d0) && Linked(d0, f)
  {
    && |lost| == 1 && 0 < lost[0] < |u0| && !u0[lost[0]] && u == u0[lost[0] := true]
    && lost[0] < |d0| && d == Relinked(d0, f.nodes[|f.nodes| - 1], lost[0])
  }

  /** What growth does when the full last node links to sector `x`: it takes that for
      the last node, puts a link to a new node in the sector `y` that `x` names
      as its own, and allocates from the new node on. */
  ghost predicate Misgrown(d0: seq<Sector>, u0: seq<bool>, d: seq<Sector>, u: seq<bool>, f: File, add: nat, length: Word,
                           ok: bool, off: bool, nn: seq<nat>, dd: seq<nat>)
    requires Disk(d0) && Linked(d0, f) && |u0| == |d0|
  {
    var x, next := EndNode(d0, f), Scan(u0, 0, 1, false);
    if x >= |d0| then off && !ok && d == d0 && u == u0
    else if next.None? then !off && !ok && d == d0 && u == u0
    else
      var y, p := Self(d0[x]), next.value;
      if y >= |d0| then off && !ok && d == d0 && u == u0[p := true]
      else
        var d1, u1 := d0[y := WithWord(d0[x], 126, p)], u0[p := true];
        && !off && (ok <==> Free(u1) >= add + ExtraNodes(add))
        && (ok && add == 0 ==> d == d1 && u == u1 && nn == [] && dd == [])
        && (ok && add > 0 ==> |dd| == add && Grown(d1, u1, d, u, p, 0, length, nn, dd))
  }

  /** And the new length goes to the head. */
  ghost predicate MisgrownTo(d0: seq<Sector>, u0: seq<bool>, d: seq<Sector>, u: seq<bool>, f: File, length: Word,
                             ok: bool, off: bool)
    requires Disk(d0) && Linked(d0, f) && |u0| == |d0|
  {
    exists d1, nn, dd :: MisgrownVia(d0, u0, d1, d, u, f, length, ok, off, nn, dd)
  }

  ghost predicate MisgrownVia(d0: seq<Sector>, u0: seq<bool>, d1: seq<Sector>, d: seq<Sector>, u: seq<bool>, f: File,
                              length: Word, ok: bool, off: bool, nn: seq<nat>, dd: seq<nat>)
    requires Disk(d0) && Linked(d0, f) && |u0| == |d0|
  {
    && Misgrown(d0, u0, d1, u, f, AddedSectors(f.length, length), length, ok, off, nn, dd)
    && Disk(d1) && |d1| == |d0| && d == if ok then Relengthed(d1, f.nodes[0], length) else d1
  }

  lemma MisgrownStops(d0: seq<Sector>, u0: seq<bool>, d: seq<Sector>, u: seq<bool>, f: File, length: Word, off: bool,
                      nn: seq<nat>, dd: seq<nat>)
    requires Disk(d0) && Linked(d0, f) && |u0| == |d0| && Disk(d) && |d| == |d0|
    requires Misgrown(d0, u0, d, u, f, AddedSectors(f.length, length), length, false, off, nn, dd)
    ensures MisgrownTo(d0, u0, d, u, f, length, false, off)
  {
    hide Misgrown;
    assert MisgrownVia(d0, u0, d, d, u, f, length, false, off, nn, dd);
  }

  lemma MisgrownLength(d0: seq<Sector>, u0: seq<bool>, d: seq<Sector>, u: seq<bool>, f: File, length: Word, off: bool,
                       nn: seq<nat>, dd: seq<nat>)
    requires Disk(d0) && Linked(d0, f) && |u0| == |d0| && Disk(d) && |d| == |d0|
    requires Misgrown(d0, u0, d, u, f, AddedSectors(f.length, length), length, true, off, nn, dd)
    ensures MisgrownTo(d0, u0, Relengthed(d, f.nodes[0], length), u, f, length, true, off)
  {
    hide Misgrown;
    assert MisgrownVia(d0, u0, d, Relengthed(d, f.nodes[0], length), u, f, length, true, off, nn, dd);
  }

  /** Then the loop goes on over what that left. */
  ghost predicate Misdone(d0: seq<Sector>, u0: seq<bool>, d: seq<Sector>, u: seq<bool>, f: File, offset: nat,
                          buffer: seq<Byte>, denied: bool, ok: bool, written: int, off: bool)
    requires Disk(d0) && Linked(d0, f) && |u0| == |d0| && offset + |buffer| < 0x8000_0000
  {
    exists d1, gone :: MisdoneVia(d0, u0, d1, gone, d, u, f, offset, buffer, denied, ok, written, off)
  }

  ghost predicate MisdoneVia(d0: seq<Sector>, u0: seq<bool>, d1: seq<Sector>, gone: bool, d: seq<Sector>, u: seq<bool>,
                             f: File, offset: nat, buffer: seq<Byte>, denied: bool, ok: bool, written: int, off: bool)
    requires Disk(d0) && Linked(d0, f) && |u0| == |d0| && offset + |buffer| < 0x8000_0000
  {
    && MisgrownTo(d0, u0, d1, u, f, offset + |buffer|, ok, gone) && Disk(d1) && |d1| == |d0|
    && (!ok ==> d == d1 && written == -1 && off == gone)
    && (ok && denied ==> d == d1 && written == 0)
    && (ok && !denied ==> Wrote(d1, d, d1[f.nodes[0]], offset, buffer, written, off))
  }

  lemma Misstopped(d0: seq<Sector>, u0: seq<bool>, d: seq<Sector>, u: seq<bool>, f: File, offset: nat,
                   buffer: seq<Byte>, denied: bool, off: bool)
    requires Disk(d0) && Linked(d0, f) && |u0| == |d0| && offset + |buffer| < 0x8000_0000 && Disk(d) && |d| == |d0|
    ensures MisgrownTo(d0, u0, d, u, f, offset + |buffer|, false, off) ==>
      Misdone(d0, u0, d, u, f, offset, buffer, denied, false, -1, off)
  {
    hide MisgrownTo;
    if MisgrownTo(d0, u0, d, u, f, offset + |buffer|, false, off) {
      assert MisdoneVia(d0, u0, d, off, d, u, f, offset, buffer, denied, false, -1, off);
    }
  }

  lemma Miswrote(d0: seq<Sector>, u0: seq<bool>, d1: seq<Sector>, gone: bool, d: seq<Sector>, u: seq<bool>, f: File,
                 offset: nat, buffer: seq<Byte>, denied: bool, written: int, off: bool)
    requires Disk(d0) && Linked(d0, f) && |u0| == |d0| && offset + |buffer| < 0x8000_0000 && Disk(d1) && |d1| == |d0|
    requires MisgrownTo(d0, u0, d1, u, f, offset + |buffer|, true, gone)
    requires if denied then d == d1 && written == 0
             else Wrote(d1, d, d1[f.nodes[0]], offset, buffer, written, off)
    ensures Misdone(d0, u0, d, u, f, offset, buffer, denied, true, written, off)
  {
    hide MisgrownTo, Wrote;
    assert MisdoneVia(d0, u0, d1, gone, d, u, f, offset, buffer, denied, true, written, off);
  }

  /** Why there is no node to go on in. */
  ghost predicate NoSuccessor(d: seq<Sector>, u0: seq<bool>, u: seq<bool>, f: File, off: bool)
    requires Disk(d) && Linked(d, f) && |u0| == |d|
  {
    var x, next := EndNode(d, f), Scan(u0, 0, 1, false);
    if x >= |d| then off && u == u0
    else if next.None? then Full(f) && Free(u0) == 0 && !off && u == u0
    else Self(d[x]) >= |d| && off && u == u0[next.value := true]
  }

  /** The node to go on in, from entry `start` on. */
  ghost predicate Succeeded(d0: seq<Sector>, u0: seq<bool>, d: seq<Sector>, u: seq<bool>, f: File, start: nat, prev: nat)
    requires Disk(d0) && Linked(d0, f) && |u0| == |d0|
  {
    var x := EndNode(d0, f);
    if !Full(f) then d == d0 && u == u0 && start == NextEntry(|f.data|) && prev == x
    else
      && start == 0 && x < |d0| && Scan(u0, 0, 1, false) == Some(prev) && prev < |u0| && Self(d0[x]) < |d0|
      && d == d0[Self(d0[x]) := WithWord(d0[x], 126, prev)] && u == u0[prev := true]
  }

  lemma SuccessorFacts(d0: seq<Sector>, u0: seq<bool>, d: seq<Sector>, u: seq<bool>, f: File, start: nat, prev: nat)
    requires Disk(d0) && Stored(d0, u0, f) && Linked(d0, f) && Succeeded(d0, u0, d, u, f, start, prev)
    ensures prev < |d| == |d0| == |u| && u[prev] && start <= DIRECT_NO
  {
    EndFacts(d0, u0, f);
    NextEntryBound(|f.data|);
  }

  lemma NotGrown(d: seq<Sector>, u0: seq<bool>, u: seq<bool>, f: File, add: nat, length: Word, off: bool)
    requires Disk(d) && Stored(d, u0, f) && Linked(d, f) && |u0| == |d| && NoSuccessor(d, u0, u, f, off)
    ensures EndsClean(d, f) ==> !off && GrewNodes(d, u0, d, u, f, add, false, [], [], [])
    ensures !EndsClean(d, f) ==> Misgrown(d, u0, d, u, f, add, length, false, off, [], [])
  {
    EndFacts(d, u0, f);
    GrowthNodesForm(f, add);
  }

  /** What the growth branch does when it finds the end of the file. */
  ghost predicate GrewNodes(d0: seq<Sector>, u0: seq<bool>, d: seq<Sector>, u: seq<bool>, f: File, add: nat, ok: bool,
                            nn: seq<nat>, dd: seq<nat>, lost: seq<nat>)
    requires Disk(d0) && Linked(d0, f)
  {
    && (ok <==> Free(u0) >= add + GrowthNodes(|f.data|, add))
    && (!ok && Full(f) && Free(u0) == 0 ==> d == d0 && u == u0)
    && (ok ==> |dd| == add && (lost != [] <==> Full(f) && add == 0))
    && (ok && lost == [] ==> Extended(d0, u0, d, u, f, nn, dd))
    && (ok && lost != [] ==> nn == [] && dd == [] && Relinks(d0, u0, d, u, f, lost))
  }

  lemma GrownCleanly(d0: seq<Sector>, u0: seq<bool>, d1: seq<Sector>, u1: seq<bool>, d: seq<Sector>, u: seq<bool>, f: File,
                     start: nat, prev: nat, add: nat, length: Word, ok: bool, more: seq<nat>, dd: seq<nat>)
    returns (nn: seq<nat>, lost: seq<nat>)
    requires Disk(d0) && Stored(d0, u0, f) && Linked(d0, f) && EndsClean(d0, f) && u0[0]
    requires Succeeded(d0, u0, d1, u1, f, start, prev)
    requires if add == 0 then ok && d == d1 && u == u1 && more == [] && dd == []
             else ok <==> Free(u1) >= add + ExtraNodes(start + add)
    requires ok && add > 0 ==> |dd| == add && Grown(d1, u1, d, u, prev, start, length, more, dd)
    ensures GrewNodes(d0, u0, d, u, f, add, ok, nn, dd, lost)
    ensures ok ==> nn == if Full(f) && add > 0 then [prev] + more else more
  {
    hide Grown, Extended, Stored, Linked, Scan, Free, Taken, WithWord, NextEntry, EndsClean, EndNode, GrowthNodes, Self,
         ExtraNodes, Full;
    nn, lost := more, [];
    EndFacts(d0, u0, f);
    GrowthNodesForm(f, add);
    if !Full(f) {
      if add == 0 {
        ExtendedByNothing(d0, u0, f);
      } else if ok {
        ExtendedInPlace(d0, u0, d, u, f, length, nn, dd);
      }
    } else {
      FreeAfterOne(u0, prev);
      if add == 0 {
        lost := [prev];
      } else if ok {
        ExtendedByNode(d0, u0, d1, d, u, f, prev, length, more, dd);
        nn := [prev] + more;
      }
    }
  }

  /** The nodes of a growing file are marked as its head is. */
  lemma NodesMarked(d0: seq<Sector>, u0: seq<bool>, d1: seq<Sector>, u1: seq<bool>, d: seq<Sector>, u: seq<bool>, f: File,
                    start: nat, prev: nat, add: nat, length: Word, info: Word, more: seq<nat>, nn: seq<nat>, dd: seq<nat>)
    requires Disk(d0) && Stored(d0, u0, f) && Linked(d0, f) && EndsClean(d0, f) && Marked(d0, f.nodes, info)
    requires Succeeded(d0, u0, d1, u1, f, start, prev) && nn == if Full(f) && add > 0 then [prev] + more else more
    requires if add == 0 then d == d1 && u == u1 && more == [] && dd == []
             else Grown(d1, u1, d, u, prev, start, length, more, dd) && AllStamped(d, [prev] + more, length, info)
    ensures Marked(d, f.nodes + nn, info)
  {
    hide Stored, Linked, EndsClean, Succeeded, Full, Grown, AllStamped, Marked;
    SuccessorMarked(d0, u0, d1, u1, f, start, prev, info);
    if add > 0 {
      forall s | s in f.nodes + nn ensures MarkedAt(d, s, info) {
        if s in f.nodes {
          MarkKept(d1, u1, d, u, prev, start, length, info, more, dd, s, f.nodes);
        } else {
          assert s in nn && (s == prev || s in more);
          assert s in [prev] + more;
          MarkNew(d, [prev] + more, length, info, s);
        }
      }
    } else {
      assert f.nodes + nn == f.nodes;
      forall s | s in f.nodes ensures MarkedAt(d, s, info) {
        MarkOf(d, f.nodes, info, s);
      }
    }
    AllMarked(d, f.nodes + nn, info);
  }

  lemma RelengthMarked(d: seq<Sector>, h: nat, length: Word, nodes: seq<nat>, info: Word)
    requires Disk(d) && h < |d| && Marked(d, nodes, info)
    ensures Marked(Relengthed(d, h, length), nodes, info)
  {
    WordSet(d[h], 2, length);
    hide WithWord, Info, Magic;
  }

  ghost predicate MarkedAt(d: seq<Sector>, s: nat, info: Word)
  {
    s < |d| && |d[s]| == SECTOR_SIZE && Info(d[s]) == info && Magic(d[s]) == 0x494e_4f44
  }

  lemma AllMarked(d: seq<Sector>, nodes: seq<nat>, info: Word)
    requires forall s :: s in nodes ==> MarkedAt(d, s, info)
    ensures Marked(d, nodes, info)
  {
  }

  lemma MarkOf(d: seq<Sector>, nodes: seq<nat>, info: Word, s: nat)
    requires Marked(d, nodes, info) && s in nodes
    ensures MarkedAt(d, s, info)
  {
  }

  lemma MarkNew(d: seq<Sector>, nodes: seq<nat>, length: nat, info: Word, s: nat)
    requires AllStamped(d, nodes, length, info) && s in nodes
    ensures MarkedAt(d, s, info)
  {
  }

  lemma MarkKept(d1: seq<Sector>, u1: seq<bool>, d: seq<Sector>, u: seq<bool>, h: nat, start: nat, length: nat, info: Word,
                 nn: seq<nat>, dd: seq<nat>, s: nat, nodes: seq<nat>)
    requires Grown(d1, u1, d, u, h, start, length, nn, dd) && AllStamped(d, [h] + nn, length, info)
    requires Marked(d1, nodes, info) && s in nodes && s < |u1| && u1[s]
    ensures MarkedAt(d, s, info)
  {
    if s == h {
      assert h in [h] + nn;
    } else {
      assert s !in nn + dd;
    }
  }

  /** Before anything is allocated the old nodes are marked and taken. */
  lemma SuccessorMarked(d0: seq<Sector>, u0: seq<bool>, d: seq<Sector>, u: seq<bool>, f: File, start: nat, prev: nat,
                        info: Word)
    requires Disk(d0) && Stored(d0, u0, f) && Linked(d0, f) && EndsClean(d0, f) && Marked(d0, f.nodes, info)
    requires Succeeded(d0, u0, d, u, f, start, prev)
    ensures Marked(d, f.nodes, info) && forall s :: s in f.nodes ==> s < |u| && u[s]
  {
    EndFacts(d0, u0, f);
    forall s | s in f.nodes ensures s < |u0| && u0[s] {
      assert s in f.nodes + f.data;
    }
    hide Stored, Linked, EndsClean, EndNode, Scan, NextEntry;
    if Full(f) {
      WordSet(d0[f.nodes[|f.nodes| - 1]], 126, prev);
      hide WithWord, Info, Magic;
    }
  }

  lemma MisgrownBy(d0: seq<Sector>, u0: seq<bool>, d1: seq<Sector>, u1: seq<bool>, d: seq<Sector>, u: seq<bool>, f: File,
                   start: nat, prev: nat, add: nat, length: Word, ok: bool, nn: seq<nat>, dd: seq<nat>)
    requires Disk(d0) && Stored(d0, u0, f) && Linked(d0, f) && !EndsClean(d0, f) && |u0| == |d0|
    requires Succeeded(d0, u0, d1, u1, f, start, prev)
    requires if add == 0 then ok && d == d1 && u == u1 && nn == [] && dd == []
             else ok <==> Free(u1) >= add + ExtraNodes(start + add)
    requires ok && add > 0 ==> |dd| == add && Grown(d1, u1, d, u, prev, start, length, nn, dd)
    ensures Misgrown(d0, u0, d, u, f, add, length, ok, false, nn, dd)
  {
    EndFacts(d0, u0, f);
    hide Scan, Grown, Free, EndNode, WithWord, Stored, Linked, EndsClean, Full;
  }

  /** The loop of FindEnd is not yet at the end, or at a full last node. */
  lemma EndStep(d: seq<Sector>, u: seq<bool>, f: File, k: nat, start: nat)
    requires Disk(d) && Stored(d, u, f) && start >= DIRECT_NO && start + DIRECT_NO * k == |f.data|
    ensures k < |f.nodes| && f.nodes[k] < |d|
    ensures k < |f.nodes| - 1 ==> 0 < Link(d[f.nodes[k]]) == f.nodes[k + 1] < |d|
    ensures k == |f.nodes| - 1 ==>
      EndNode(d, f) == if Link(d[f.nodes[k]]) == 0 then f.nodes[k] else Link(d[f.nodes[k]])
  {
    NextEntryBound(|f.data|);
    LinkedCount(d, f);
    if k < |f.nodes| - 1 {
      NextNode(d, f, k);
    }
  }

  lemma EndFound(d: seq<Sector>, f: File, k: nat, start: nat)
    requires Disk(d) && Linked(d, f) && start < DIRECT_NO && start + DIRECT_NO * k == |f.data| && k <= |f.nodes|
    ensures k >= |f.nodes| - 1 && start == if Full(f) then 0 else NextEntry(|f.data|)
    ensures k == |f.nodes| - 1 ==> EndNode(d, f) == f.nodes[k]
  {
    NextEntryBound(|f.data|);
    LinkedCount(d, f);
  }

  lemma GrowthNodesForm(f: File, add: nat)
    ensures var e := NextEntry(|f.data|);
      && 0 <= e <= DIRECT_NO && (e == 0 <==> |f.data| == 0) && (Full(f) <==> e == DIRECT_NO)
      && GrowthNodes(|f.data|, add) == (if Full(f) then 1 + ExtraNodes(add) else ExtraNodes(e + add))
      && (add == 0 ==> GrowthNodes(|f.data|, add) == if Full(f) then 1 else 0)
  {
    NextEntryBound(|f.data|);
  }

  lemma EndFacts(d: seq<Sector>, u: seq<bool>, f: File)
    requires Disk(d) && Stored(d, u, f)
    ensures Linked(d, f) && |f.nodes| > 0 && Length(d[f.nodes[0]]) == f.length && (f.length == 0 <==> |f.data| == 0)
    ensures var last := f.nodes[|f.nodes| - 1]; last < |d| == |u| && u[last] && Self(d[last]) == last
    ensures if EndsClean(d, f) then EndNode(d, f) == f.nodes[|f.nodes| - 1] else Full(f)
    ensures (NextEntry(|f.data|) == 0 <==> f.length == 0) && (Full(f) ==> f.length > 0)
  {
    NextEntryBound(|f.data|);
    assert f.nodes[|f.nodes| - 1] in f.nodes + f.data;
  }

  lemma FileParts(d: seq<Sector>, u: seq<bool>, f: File)
    requires Disk(d) && Stored(d, u, f)
    ensures Chain(d, f.nodes[0], f.nodes[1..], 0, f.data) && Distinct(f.nodes[1..] + f.data)
    ensures f.nodes[0] !in f.nodes[1..] + f.data
    ensures forall s :: s in f.nodes[1..] + f.data ==> s in f.nodes + f.data
  {
    var h, nn := f.nodes[0], f.nodes[1..];
    assert [h] + nn == f.nodes && [h] + (nn + f.data) == f.nodes + f.data;
    DistinctParts([h], nn + f.data);
    assert h in [h];
    assert f == File([h] + nn, f.data, f.length);
    assert forall s :: s in f.data ==> s in f.nodes + f.data;
    ChainIsLinked(d, h, nn, f.data, f.length);
  }

  lemma FileMembers(u: seq<bool>, f: File)
    requires Owns(u, f) && 0 !in f.nodes + f.data && f.nodes != []
    ensures forall s :: s in f.nodes[1..] + f.data ==> s < |u| && u[s] && s != 0
    ensures 0 < f.nodes[0] < |u| && u[f.nodes[0]]
  {
    assert f.nodes[0] in f.nodes + f.data;
    forall s | s in f.nodes[1..] + f.data ensures s in f.nodes + f.data {
    }
  }

  lemma HeadTaken(u: seq<bool>, u0: seq<bool>, h: nat, rest: seq<nat>)
    requires Taken(u, u0, rest) && h < |u0| && u0[h] && h !in rest
    ensures h < |u| && Taken(u[h := false], u, [h])
  {
  }

  lemma ReleaseOne(u: seq<bool>, u0: seq<bool>, dd: seq<nat>, i: nat)
    requires i < |dd| && Distinct(dd) && Taken(u, u0, dd[..i]) && dd[i] < |u0| && u0[dd[i]]
    ensures |u| == |u0| && Taken(u[dd[i] := false], u0, dd[..i + 1])
  {
    var s := dd[i];
    assert s !in dd[..i];
    assert dd[..i + 1] == dd[..i] + [s];
  }

  lemma ReleaseParts(u: seq<bool>, nn: seq<nat>, dd: seq<nat>, n: nat)
    requires Distinct(nn + dd) && (forall s :: s in nn + dd ==> s < |u| && u[s] && s != 0) && nn != [] && n <= |dd|
    ensures Distinct(nn[1..] + dd[n..]) && forall s :: s in nn[1..] + dd[n..] ==> s < |u| && u[s] && s != 0
    ensures nn[0] !in nn[1..] + dd[n..] && nn[0] < |u| && u[nn[0]] && nn[0] != 0
    ensures Distinct(dd[..n]) && nn[0] !in dd[..n] && Disjoint(nn[1..] + dd[n..], dd[..n])
    ensures forall s :: s in dd[..n] ==> s < |u| && u[s] && s != 0
  {
    var x, rest, front, back := nn[0], nn[1..], dd[..n], dd[n..];
    assert nn == [x] + rest && dd == front + back;
    DistinctParts(nn, dd);
    DistinctParts([x], rest);
    DistinctParts(front, back);
    SplitMembers(nn, dd, x, rest, front, back);
    hide Distinct;
    DistinctConcat(rest, back);
  }

  lemma SplitMembers(nn: seq<nat>, dd: seq<nat>, x: nat, rest: seq<nat>, front: seq<nat>, back: seq<nat>)
    requires nn == [x] + rest && dd == front + back && Disjoint(nn, dd) && Disjoint([x], rest) && Disjoint(front, back)
    ensures forall s :: s in nn + dd <==> s == x || s in rest || s in front || s in back
    ensures x !in rest && x !in front && x !in back && Disjoint(rest, front) && Disjoint(rest, back)
  {
    assert x in [x] && x in nn;
    assert forall s :: s in rest ==> s in nn;
    assert forall s :: s in front || s in back ==> s in dd;
  }

  lemma ReleaseJoined(u0: seq<bool>, u1: seq<bool>, u2: seq<bool>, u3: seq<bool>, nn: seq<nat>, dd: seq<nat>, n: nat)
    requires Distinct(nn + dd) && (forall s :: s in nn + dd ==> s < |u0| && u0[s]) && nn != [] && n <= |dd|
    requires Taken(u1, u0, nn[1..] + dd[n..]) && nn[0] < |u1| && nn[0] !in nn[1..] + dd[n..] && u2 == u1[nn[0] := false]
    requires Taken(u3, u2, dd[..n])
    ensures Taken(u3, u0, nn + dd)
  {
    assert nn[0] in nn + dd;
    assert Taken(u2, u1, [nn[0]]);
    TakenMore(u2, u1, u0, [nn[0]], nn[1..] + dd[n..]);
    TakenMore(u3, u2, u0, dd[..n], [nn[0]] + (nn[1..] + dd[n..]));
    var a := dd[..n] + ([nn[0]] + (nn[1..] + dd[n..]));
    assert nn == [nn[0]] + nn[1..] && dd == dd[..n] + dd[n..];
    forall s ensures s in a <==> s in nn + dd {
      assert s in nn <==> s == nn[0] || s in nn[1..];
      assert s in dd <==> s in dd[..n] || s in dd[n..];
    }
    TakenReordered(u3, u0, a, nn + dd);
  }

  lemma SecondNode(d: seq<Sector>, u: seq<bool>, f: File)
    requires Disk(d) && Stored(d, u, f) && |f.data| > DIRECT_NO
    ensures Link(d[f.nodes[0]]) != 0
  {
    assert |f.nodes| > 1 && f.nodes[1] != 0;
  }

  /** What the free map was before a file of these sectors was created. */
  lemma HeadAndRest(u0: seq<bool>, u: seq<bool>, f: File, sector: nat)
    requires f.nodes != [] && f.nodes[0] == sector < |u0| && u0[sector] && Taken(u0, u, f.nodes[1..] + f.data)
    ensures Taken(u0[sector := false], u, f.nodes + f.data)
  {
    var rest := f.nodes[1..] + f.data;
    assert [sector] + rest == f.nodes + f.data;
    TakenOne(u0[sector := false], sector);
    assert u0[sector := false][sector := true] == u0;
    TakenMore(u0[sector := false], u0, u, [sector], rest);
  }

  /** The bytes of a write can be read back exactly when it starts at or past
      the end or stays inside the file: a write across the end is cut off,
      although all of it is reported as written. */
  lemma WriteVisibleIff(c: seq<Byte>, length: nat, offset: nat, buffer: seq<Byte>)
    requires length <= |c| && buffer != []
    ensures var now := AfterWrite(c, length, offset, buffer, false);
      (offset + |buffer| <= |now| && now[offset..offset + |buffer|] == buffer) <==>
      (offset >= length || offset + |buffer| <= length)
  {
    var now := AfterWrite(c, length, offset, buffer, false);
    if offset >= length || offset + |buffer| <= length {
      assert buffer[..|buffer|] == buffer;
      assert forall i :: 0 <= i < |buffer| ==> now[offset + i] == buffer[i];
      assert now[offset..offset + |buffer|] == buffer;
    }
  }

  /** The gap between the old end and a write past it reads as zeros exactly
      when the last sector held nothing but zeros there. */
  lemma GapIsZeroIff(c: seq<Byte>, length: nat, offset: nat, buffer: seq<Byte>)
    requires length <= |c| && length <= offset && buffer != []
    ensures var now := AfterWrite(c, length, offset, buffer, false);
      |now| == offset + |buffer| &&
      ((forall p :: length <= p < offset ==> now[p] == 0) <==> (forall p :: length <= p < |c| && p < offset ==> c[p] == 0))
  {
    var now := AfterWrite(c, length, offset, buffer, false);
    assert forall p :: length <= p < offset ==> now[p] == if p < |c| then c[p] else 0;
  }

  /** Two bytes written to a file of length one: the second is past its end and
      is cut off, and a later write further on brings it to light. */
  lemma GapShowsCutOffByte()
    ensures var c := WrittenContents(Zeros(), 1, 0, [7, 7], false);
      && AfterWrite(Zeros(), 1, 0, [7, 7], false) == [7]
      && |c| == SECTOR_SIZE && AfterWrite(c, 1, 3, [9], false) == [7, 7, 0, 9]
  {
    var c := WrittenContents(Zeros(), 1, 0, [7, 7], false);
    assert [7, 7][..1] == [7];
    assert AfterWrite(Zeros(), 1, 0, [7, 7], false) == [7];
    assert c[0] == 7 && c[1] == 7 && c[2] == 0;
    assert c[..4][..3] == [7, 7, 0] && [9][..1] == [9];
  }

  /** A write to `f` leaves every other file on the volume as it was. */
  lemma OtherFileSurvives(d0: seq<Sector>, u0: seq<bool>, d: seq<Sector>, u: seq<bool>, f: File, f': File,
                          lost: seq<nat>, g: File)
    requires Disk(d0) && Disk(d) && Stored(d0, u0, g) && Disjoint(g.nodes + g.data, f.nodes + f.data)
    requires f.nodes <= f'.nodes && f.data <= f'.data && OutsideSame(d0, d, f')
    requires Taken(u0, u, f'.nodes[|f.nodes|..] + f'.data[|f.data|..] + lost)
    ensures Stored(d, u, g) && Contents(d, g) == Contents(d0, g) && (WellFormed(d, u, g) <==> WellFormed(d0, u0, g))
  {
    var added := f'.nodes[|f.nodes|..] + f'.data[|f.data|..] + lost;
    assert f'.nodes == f.nodes + f'.nodes[|f.nodes|..] && f'.data == f.data + f'.data[|f.data|..];
    forall s | s in g.nodes + g.data ensures s < |d| && d[s] == d0[s] && u[s] {
      assert u0[s] && s !in added && s !in f.nodes + f.data;
      assert s !in f.nodes && s !in f.data && s !in f'.nodes[|f.nodes|..] && s !in f'.data[|f.data|..];
    }
    OtherFileUnchanged(d0, u0, d, u, g);
  }
}
