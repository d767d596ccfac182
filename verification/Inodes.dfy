/**
 Files as chains of index nodes (src/filesys/inode.c, the linked layout) over a
 flat array of sectors and the in-memory free map (src/filesys/free-map.c).

 A node is a sector read as 128 little-endian words: its own sector number,
 info, length, 123 direct sector numbers, the link to the next node, and a
 magic number.
 */
module Inodes {
  import opened Storage
  import opened Sequences

  type Word = x: int | 0 <= x < 0x1_0000_0000

  const DIRECT_NO := 123
  const INODE_MAGIC: Word := 0x494e_4f44

  // ----- nodes as sectors -----

  function WordAt(b: Sector, i: nat): (w: Word)
    requires 4 * i + 4 <= |b|
  {
    var b0: int, b1: int, b2: int, b3: int := b[4 * i], b[4 * i + 1], b[4 * i + 2], b[4 * i + 3];
    b0 + 0x100 * b1 + 0x1_0000 * b2 + 0x100_0000 * b3
  }

  function ByteOf(w: Word, k: nat): (b: Byte)
  {
    if k == 0 then w % 0x100
    else if k == 1 then w / 0x100 % 0x100
    else if k == 2 then w / 0x1_0000 % 0x100
    else w / 0x100_0000 % 0x100
  }

  function ToWords(b: Sector): (r: seq<Word>)
    requires |b| == SECTOR_SIZE
    ensures |r| == 128
  {
    seq(128, i requires 0 <= i < 128 => WordAt(b, i))
  }

  function ToBytes(w: seq<Word>): (r: Sector)
    requires |w| == 128
    ensures |r| == SECTOR_SIZE
  {
    seq(SECTOR_SIZE, j requires 0 <= j < SECTOR_SIZE => ByteOf(w[j / 4], j % 4))
  }

  lemma WordFromBytes(w: Word)
    ensures w == ByteOf(w, 0) + 0x100 * ByteOf(w, 1) + 0x1_0000 * ByteOf(w, 2) + 0x100_0000 * ByteOf(w, 3)
  {
    assert w / 0x1_0000 == w / 0x100 / 0x100;
    assert w / 0x100_0000 == w / 0x1_0000 / 0x100;
  }

  lemma WordRoundTrip(w: seq<Word>, i: nat)
    requires |w| == 128 && i < 128
    ensures WordAt(ToBytes(w), i) == w[i]
  {
    var b := ToBytes(w);
    assert b[4 * i] == ByteOf(w[i], 0);
    assert b[4 * i + 1] == ByteOf(w[i], 1);
    assert b[4 * i + 2] == ByteOf(w[i], 2);
    assert b[4 * i + 3] == ByteOf(w[i], 3);
    WordFromBytes(w[i]);
  }

  /** Words are stored with their lowest byte first. */
  lemma LittleEndian(w: seq<Word>, i: nat)
    requires |w| == 128 && i < 128
    ensures var b := ToBytes(w);
      w[i] % 0x100 == b[4 * i] && w[i] / 0x100 % 0x100 == b[4 * i + 1] &&
      w[i] / 0x1_0000 % 0x100 == b[4 * i + 2] && w[i] / 0x100_0000 == b[4 * i + 3]
  {
  }

  /** A node written to a sector reads back as itself. */
  lemma NodeRoundTrip(w: seq<Word>)
    requires |w| == 128
    ensures ToWords(ToBytes(w)) == w
  {
    var b := ToBytes(w);
    forall i | 0 <= i < 128 ensures ToWords(b)[i] == w[i] {
      WordRoundTrip(w, i);
    }
  }

  /** The node in `b` with word `i` set to `x`. */
  function WithWord(b: Sector, i: nat, x: Word): (r: Sector)
    requires |b| == SECTOR_SIZE && i < 128
    ensures |r| == SECTOR_SIZE
  {
    ToBytes(ToWords(b)[i := x])
  }

  // Fields of the node stored in a sector.

  function Self(b: Sector): Word
    requires |b| == SECTOR_SIZE
  {
    WordAt(b, 0)
  }

  function Info(b: Sector): Word
    requires |b| == SECTOR_SIZE
  {
    WordAt(b, 1)
  }

  function Magic(b: Sector): Word
    requires |b| == SECTOR_SIZE
  {
    WordAt(b, 127)
  }

  function Length(b: Sector): Word
    requires |b| == SECTOR_SIZE
  {
    WordAt(b, 2)
  }

  function Direct(b: Sector, i: nat): Word
    requires |b| == SECTOR_SIZE && i < DIRECT_NO
  {
    WordAt(b, 3 + i)
  }

  function Link(b: Sector): Word
    requires |b| == SECTOR_SIZE
  {
    WordAt(b, 126)
  }

  // ----- files -----

  function Zeros(): (r: Sector)
    ensures |r| == SECTOR_SIZE && forall i :: 0 <= i < SECTOR_SIZE ==> r[i] == 0
  {
    seq(SECTOR_SIZE, i => 0)
  }

  function SectorCount(length: nat): nat
  {
    (length + SECTOR_SIZE - 1) / SECTOR_SIZE
  }

  /** How many nodes beyond the first `t` direct entries take. */
  function ExtraNodes(t: nat): nat
  {
    if t <= DIRECT_NO then 0 else (t - 1) / DIRECT_NO
  }

  /** The sectors of a file: index nodes from the head on, and data in order. */
  datatype File = File(nodes: seq<nat>, data: seq<nat>, length: nat)

  ghost predicate Disk(d: seq<Sector>)
  {
    |d| < 0x8000_0000 && forall s :: 0 <= s < |d| ==> |d[s]| == SECTOR_SIZE
  }

  /** Data sector `j` is the one its entry names. */
  ghost predicate Named(d: seq<Sector>, f: File, j: nat)
    requires Disk(d) && j < |f.data|
  {
    var i := j / DIRECT_NO;
    i < |f.nodes| && f.nodes[i] < |d| && Direct(d[f.nodes[i]], j % DIRECT_NO) == f.data[j]
  }

  /** The nodes on disk really link these nodes and name these data sectors. */
  ghost predicate Linked(d: seq<Sector>, f: File)
    requires Disk(d)
  {
    && |f.nodes| == 1 + ExtraNodes(|f.data|)
    && (forall i :: 0 <= i < |f.nodes| ==> f.nodes[i] < |d|)
    && (forall j :: 0 <= j < |f.data| ==> f.data[j] < |d|)
    && (forall i :: 0 <= i < |f.nodes| ==> Self(d[f.nodes[i]]) == f.nodes[i])
    && (forall i :: 0 <= i < |f.nodes| - 1 ==> Link(d[f.nodes[i]]) == f.nodes[i + 1])
    && (forall j :: 0 <= j < |f.data| ==> Named(d, f, j))
  }

  /** Everything the data sectors hold, up to the end of the last one. */
  ghost function Contents(d: seq<Sector>, f: File): (r: seq<Byte>)
    requires Disk(d) && Linked(d, f)
    ensures |r| == SECTOR_SIZE * |f.data|
  {
    seq(SECTOR_SIZE * |f.data|, p requires 0 <= p < SECTOR_SIZE * |f.data| => d[f.data[p / SECTOR_SIZE]][p % SECTOR_SIZE])
  }

  /** No sector serves twice, and the free map has them all marked. */
  ghost predicate Owns(used: seq<bool>, f: File)
  {
    Distinct(f.nodes + f.data) && forall s :: s in f.nodes + f.data ==> s < |used| && used[s]
  }

  /** The file is on the disk, with as many sectors as its stored length needs. */
  ghost predicate Stored(d: seq<Sector>, used: seq<bool>, f: File)
    requires Disk(d)
  {
    && Linked(d, f) && |used| == |d| && Owns(used, f) && (forall i :: 1 <= i < |f.nodes| ==> f.nodes[i] != 0)
    && f.length < 0x8000_0000 && |f.data| == SectorCount(f.length) && Length(d[f.nodes[0]]) == f.length
  }

  ghost predicate ZeroFrom(c: seq<Byte>, n: nat)
  {
    forall p :: n <= p < |c| ==> c[p] == 0
  }

  /** Besides, the last link is zero, and so is what follows the end in the last sector. */
  ghost predicate WellFormed(d: seq<Sector>, used: seq<bool>, f: File)
    requires Disk(d)
  {
    Stored(d, used, f) && Link(d[f.nodes[|f.nodes| - 1]]) == 0 && ZeroFrom(Contents(d, f), f.length)
  }

  /** The bytes of a file. */
  ghost function Bytes(d: seq<Sector>, f: File): (r: seq<Byte>)
    requires Disk(d) && Linked(d, f) && f.length <= SECTOR_SIZE * |f.data|
    ensures |r| == f.length
  {
    Contents(d, f)[..f.length]
  }

  /** A file none of whose sectors changed is unchanged. */
  lemma OtherFileUnchanged(d: seq<Sector>, used: seq<bool>, d': seq<Sector>, used': seq<bool>, g: File)
    requires Disk(d) && Disk(d') && |d'| == |d| && |used'| == |used| && Stored(d, used, g)
    requires forall s :: s in g.nodes + g.data ==> d'[s] == d[s] && used'[s]
    ensures Stored(d', used', g) && Contents(d', g) == Contents(d, g)
    ensures (WellFormed(d', used', g) <==> WellFormed(d, used, g))
  {
    assert forall i :: 0 <= i < |g.nodes| ==> g.nodes[i] in g.nodes + g.data;
    assert forall j :: 0 <= j < |g.data| ==> g.data[j] in g.nodes + g.data;
    forall j | 0 <= j < |g.data| ensures Named(d', g, j) {
      assert Named(d, g, j);
    }
    assert Linked(d', g);
    var c, c' := Contents(d, g), Contents(d', g);
    assert forall p :: 0 <= p < |c| ==> c'[p] == c[p];
    assert c' == c;
  }
}
