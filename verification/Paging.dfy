/**
 Demand paging (src/userprog/exception.c, src/vm/swap.c, src/vm/page.c,
 src/userprog/pagedir.c): the state of the virtual-memory system and the page
 fault as a function on it.

 A page is named by a process and a virtual page number.  A page table entry
 that is missing from `ptes` is one whose page table has not been created, the
 case in which lookup_page returns a null pointer.
 */
module Paging {
  import opened Bitmaps
  import opened Storage
  import opened Sequences

  type PageData = seq<Byte>
  type FileId = nat

  const PGSIZE := 4096
  const STACK_BASE := 0xb800_0000
  const PHYS_BASE := 0xc000_0000

  datatype Key = Key(pid: nat, page: nat)

  /** A page table entry: the hardware P, W, A and D bits and the stack bit. */
  datatype Pte = Pte(present: bool, frame: nat, writable: bool, accessed: bool, dirty: bool, stack: bool)

  const EMPTY_PTE := Pte(false, 0, false, false, false, false)

  /** A supplementary page table entry. */
  datatype Page = Page(file: Option<FileId>, filepos: nat, readBytes: nat,
                       writable: bool, mmaped: bool, swapOuted: bool, swapIndex: nat)

  datatype Vm = Vm(
    ptes: map<Key, Pte>,
    spt: map<Key, Page>,
    frameTable: seq<Key>,
    used: seq<bool>,              // user pool, one bit per frame
    mem: seq<PageData>,           // contents of the user pool
    swapUsed: seq<bool>,          // one bit per slot of eight sectors
    swapDisk: seq<seq<Byte>>,     // sectors
    files: map<FileId, seq<Byte>>,
    esp: map<nat, nat>)           // saved user stack pointer per process

  /** A page filled with one byte: zero when handed out, 0xcc when freed. */
  function Filled(b: Byte): (r: PageData)
    ensures |r| == PGSIZE && forall i :: 0 <= i < PGSIZE ==> r[i] == b
  {
    seq(PGSIZE, i => b)
  }

  predicate Resident(v: Vm, k: Key)
  {
    k in v.ptes && v.ptes[k].present
  }

  function KeyOf(pid: nat, addr: nat): Key
  {
    Key(pid, addr / PGSIZE)
  }

  // ----- swap slots -----

  function ReadSlot(disk: seq<seq<Byte>>, slot: nat): (r: PageData)
    requires 8 * slot + 8 <= |disk|
    requires forall s :: 0 <= s < |disk| ==> |disk[s]| == SECTOR_SIZE
    ensures |r| == PGSIZE
  {
    seq(PGSIZE, i requires 0 <= i < PGSIZE => disk[8 * slot + i / SECTOR_SIZE][i % SECTOR_SIZE])
  }

  function WriteSlot(disk: seq<seq<Byte>>, slot: nat, data: PageData): (r: seq<seq<Byte>>)
    requires 8 * slot + 8 <= |disk| && |data| == PGSIZE
    ensures |r| == |disk|
    ensures forall s :: 0 <= s < |disk| ==>
      r[s] == if 8 * slot <= s < 8 * slot + 8 then data[SECTOR_SIZE * (s - 8 * slot)..SECTOR_SIZE * (s - 8 * slot) + SECTOR_SIZE]
              else disk[s]
  {
    seq(|disk|, s requires 0 <= s < |disk| =>
      if 8 * slot <= s < 8 * slot + 8 then data[SECTOR_SIZE * (s - 8 * slot)..SECTOR_SIZE * (s - 8 * slot) + SECTOR_SIZE]
      else disk[s])
  }

  /** A slot reads back what was written to it, and no other slot changes. */
  lemma SlotRoundTrip(disk: seq<seq<Byte>>, slot: nat, data: PageData, other: nat)
    requires 8 * slot + 8 <= |disk| && |data| == PGSIZE && 8 * other + 8 <= |disk|
    requires forall s :: 0 <= s < |disk| ==> |disk[s]| == SECTOR_SIZE
    ensures forall s :: 0 <= s < |disk| ==> |WriteSlot(disk, slot, data)[s]| == SECTOR_SIZE
    ensures ReadSlot(WriteSlot(disk, slot, data), other) == if other == slot then data else ReadSlot(disk, other)
  {
    var d := WriteSlot(disk, slot, data);
    var r := ReadSlot(d, other);
    var e := if other == slot then data else ReadSlot(disk, other);
    forall i | 0 <= i < PGSIZE ensures r[i] == e[i] {
      var s := 8 * other + i / SECTOR_SIZE;
      assert i == SECTOR_SIZE * (i / SECTOR_SIZE) + i % SECTOR_SIZE;
      if other == slot {
        assert d[s] == data[SECTOR_SIZE * (i / SECTOR_SIZE)..SECTOR_SIZE * (i / SECTOR_SIZE) + SECTOR_SIZE];
      } else {
        assert !(8 * slot <= s < 8 * slot + 8);
      }
    }
  }

  // ----- files -----

  /** The first contents of a page: file bytes, then zeros. */
  function FilePage(file: seq<Byte>, pos: nat, n: nat): (r: PageData)
    requires n <= PGSIZE && pos + n <= |file|
    ensures |r| == PGSIZE
    ensures r[..n] == file[pos..pos + n]
  {
    file[pos..pos + n] + seq(PGSIZE - n, _ => 0)
  }

  /** Byte by byte. */
  lemma FilePageByte(file: seq<Byte>, pos: nat, n: nat, i: nat)
    requires n <= PGSIZE && pos + n <= |file| && i < PGSIZE
    ensures FilePage(file, pos, n)[i] == if i < n then file[pos + i] else 0
  {
  }

  function FileWrite(file: seq<Byte>, pos: nat, data: seq<Byte>): (r: seq<Byte>)
    requires pos + |data| <= |file|
    ensures |r| == |file|
    ensures r[pos..pos + |data|] == data
    ensures forall i :: 0 <= i < |file| && !(pos <= i < pos + |data|) ==> r[i] == file[i]
  {
    file[..pos] + data + file[pos + |data|..]
  }

  // ----- what a page holds -----

  /** The bytes of page `k`, wherever they currently live. */
  function Content(v: Vm, k: Key): (r: PageData)
    requires Shape(v) && k in v.spt && KeyOk(v, k)
    ensures |r| == PGSIZE
  {
    var pg := v.spt[k];
    if Resident(v, k) then v.mem[v.ptes[k].frame]
    else if pg.swapOuted then ReadSlot(v.swapDisk, pg.swapIndex)
    else FilePage(v.files[pg.file.value], pg.filepos, pg.readBytes)
  }

  /** How many bytes of the page survive eviction: all of a private page, the
      file's share of a mapped one. */
  function Kept(pg: Page): nat
  {
    if pg.mmaped then pg.readBytes else PGSIZE
  }

  // ----- the invariant -----

  predicate Shape(v: Vm)
  {
    && |v.used| == |v.mem|
    && 8 * |v.swapUsed| <= |v.swapDisk|
    && (forall f :: 0 <= f < |v.mem| ==> |v.mem[f]| == PGSIZE)
    && (forall s :: 0 <= s < |v.swapDisk| ==> |v.swapDisk[s]| == SECTOR_SIZE)
  }

  /** A page is in exactly one place, and that place is consistent. */
  predicate KeyOk(v: Vm, k: Key)
    requires Shape(v) && k in v.spt
  {
    var pg := v.spt[k];
    && pg.readBytes <= PGSIZE
    && (pg.file.Some? ==> pg.file.value in v.files && pg.filepos + pg.readBytes <= |v.files[pg.file.value]|)
    && (pg.mmaped ==> pg.file.Some? && !pg.swapOuted && pg.writable)
    && (pg.swapOuted ==> pg.swapIndex < |v.swapUsed| && v.swapUsed[pg.swapIndex])
    && (!Resident(v, k) && !pg.swapOuted ==> pg.file.Some?)
    && (Resident(v, k) ==> ResidentOk(v, v.ptes[k], pg))
  }

  predicate ResidentOk(v: Vm, pte: Pte, pg: Page)
    requires Shape(v)
    requires pg.readBytes <= PGSIZE
    requires pg.file.Some? ==> pg.file.value in v.files && pg.filepos + pg.readBytes <= |v.files[pg.file.value]|
    requires pg.mmaped ==> pg.file.Some?
  {
    && !pg.swapOuted
    && pte.frame < |v.mem| && v.used[pte.frame]
    && pte.writable == pg.writable
    && (pg.mmaped && !pte.dirty ==>
        v.mem[pte.frame][..pg.readBytes] == v.files[pg.file.value][pg.filepos..pg.filepos + pg.readBytes])
  }

  ghost predicate DistinctFrames(v: Vm)
  {
    forall j, k :: Resident(v, j) && Resident(v, k) && j != k ==> v.ptes[j].frame != v.ptes[k].frame
  }

  ghost predicate DistinctSlots(v: Vm)
  {
    forall j, k :: j in v.spt && k in v.spt && j != k && v.spt[j].swapOuted && v.spt[k].swapOuted
      ==> v.spt[j].swapIndex != v.spt[k].swapIndex
  }

  /** No two pages share file bytes unless both are private: every mapped file
      has one writer, and executables have none. */
  ghost predicate NoOtherWriter(v: Vm)
  {
    forall j, k :: j in v.spt && k in v.spt && j != k && v.spt[j].mmaped ==> Apart(v.spt[j], v.spt[k])
  }

  predicate Apart(p: Page, q: Page)
  {
    p.file.Some? && q.file.Some? && p.file == q.file ==>
      p.filepos + p.readBytes <= q.filepos || q.filepos + q.readBytes <= p.filepos
  }

  /** The frame table lists every resident page once. */
  ghost predicate FrameTableOk(v: Vm)
  {
    && Distinct(v.frameTable)
    && (forall k :: k in v.frameTable <==> Resident(v, k))
  }

  ghost predicate Inv(v: Vm)
  {
    && Shape(v)
    && (forall k :: Resident(v, k) ==> k in v.spt)
    && (forall k :: k in v.spt ==> KeyOk(v, k))
    && DistinctFrames(v) && DistinctSlots(v) && NoOtherWriter(v) && FrameTableOk(v)
  }

  /** `w` holds every page of `v` with the same attributes and the same bytes. */
  ghost predicate KeepsContents(v: Vm, w: Vm)
    requires Inv(v) && Inv(w)
  {
    forall k :: k in v.spt ==>
      k in w.spt && SamePage(v.spt[k], w.spt[k]) && Content(w, k)[..Kept(w.spt[k])] == Content(v, k)[..Kept(v.spt[k])]
  }

  predicate SamePage(p: Page, q: Page)
  {
    p.(swapOuted := false, swapIndex := 0) == q.(swapOuted := false, swapIndex := 0)
  }

  // ----- the pieces of a page fault -----

  /** At most accessed and stack bits differ. */
  predicate SoftChange(p: map<Key, Pte>, q: map<Key, Pte>)
  {
    && q.Keys == p.Keys
    && forall k :: k in p ==> q[k] == p[k].(accessed := q[k].accessed, stack := q[k].stack)
  }

  /** pagedir_set_stack. */
  function SetStack(ptes: map<Key, Pte>, k: Key, on: bool): (r: map<Key, Pte>)
    ensures SoftChange(ptes, r)
  {
    if k in ptes then ptes[k := ptes[k].(stack := on)] else ptes
  }

  /** Of the pages of process `pid` only the one of its stack pointer has the stack bit. */
  ghost predicate OnlyStackMarked(v: Vm, pid: nat)
  {
    pid in v.esp && forall k :: k in v.ptes && k.pid == pid && v.ptes[k].stack ==> k == KeyOf(pid, v.esp[pid])
  }

  /** set_new_dirty_page, as page_fault calls it. */
  function UpdateEsp(v: Vm, pid: nat, newEsp: nat): Vm
    requires pid in v.esp
  {
    if newEsp < PHYS_BASE && v.esp[pid] != newEsp then
      v.(ptes := SetStack(SetStack(v.ptes, KeyOf(pid, v.esp[pid]), false), KeyOf(pid, newEsp), true),
         esp := v.esp[pid := newEsp])
    else v
  }

  /** palloc_get_page (PAL_USER | PAL_ZERO): the first free frame, zeroed. */
  function Allocated(v: Vm, f: nat): Vm
    requires f < |v.used| && f < |v.mem|
  {
    v.(used := v.used[f := true], mem := v.mem[f := Filled(0)])
  }

  function FreeFrame(v: Vm): (r: Option<nat>)
    ensures r.Some? ==> r.value < |v.used| && !v.used[r.value]
  {
    Scan(v.used, 0, 1, false)
  }

  /** Where the second-chance scan stops: the first frame with neither bit set,
      or, when every frame has one, the first without the stack bit. */
  function VictimIndex(ptes: map<Key, Pte>, table: seq<Key>): (r: Option<nat>)
    requires forall k :: k in table ==> k in ptes
    ensures r.Some? ==> r.value < |table| && !ptes[table[r.value]].stack
    ensures r.None? <==> forall i :: 0 <= i < |table| ==> ptes[table[i]].stack
  {
    var i := FirstClear(ptes, table, true);
    if i < |table| then Some(i)
    else
      var j := FirstClear(ptes, table, false);
      if j < |table| then Some(j) else None
  }

  /** The first entry without the stack bit and, if asked, without the accessed bit. */
  function FirstClear(ptes: map<Key, Pte>, table: seq<Key>, both: bool): (r: nat)
    requires forall k :: k in table ==> k in ptes
    ensures r <= |table|
    ensures forall i :: 0 <= i < r ==> ptes[table[i]].stack || (both && ptes[table[i]].accessed)
    ensures r < |table| ==> !ptes[table[r]].stack && (both ==> !ptes[table[r]].accessed)
  {
    if table == [] then 0
    else if !ptes[table[0]].stack && (both ==> !ptes[table[0]].accessed) then 0
    else
      assert forall k :: k in table[1..] ==> k in table;
      1 + FirstClear(ptes, table[1..], both)
  }

  function ClearAccessed(ptes: map<Key, Pte>, ks: seq<Key>): (r: map<Key, Pte>)
    ensures SoftChange(ptes, r)
    ensures forall k :: k in ptes ==> r[k] == if k in ks then ptes[k].(accessed := false) else ptes[k]
  {
    map k | k in ptes :: if k in ks then ptes[k].(accessed := false) else ptes[k]
  }

  /** The page table entries when the scan stops at `i`: either it got there
      directly, or it first passed every frame once. */
  function Passed(ptes: map<Key, Pte>, t: seq<Key>, i: nat): (r: map<Key, Pte>)
    requires i < |t| && (forall k :: k in t ==> k in ptes)
    ensures SoftChange(ptes, r)
  {
    ClearAccessed(ptes, if FirstClear(ptes, t, true) == |t| then t else t[..i])
  }

  /** frame_table_find_victim: the state after the scan; the victim is gone
      from the table, which has been rotated past it. */
  function Scanned(v: Vm, i: nat): Vm
    requires i < |v.frameTable| && (forall k :: k in v.frameTable ==> k in v.ptes)
  {
    v.(ptes := Passed(v.ptes, v.frameTable, i), frameTable := v.frameTable[i + 1..] + v.frameTable[..i])
  }

  /** Everything page_fault does to the victim `k` after the scan. */
  function SwappedOut(v: Vm, k: Key, slot: nat): Vm
    requires Shape(v) && k in v.spt && KeyOk(v, k) && Resident(v, k) && slot < |v.swapUsed|
  {
    var pg, pte := v.spt[k], v.ptes[k];
    var gone := pte.(accessed := true, present := false);
    var w := v.(swapUsed := v.swapUsed[slot := true],
                used := v.used[pte.frame := false],
                mem := v.mem[pte.frame := Filled(0xcc)]);
    if !pg.mmaped then
      w.(ptes := v.ptes[k := gone],
         spt := v.spt[k := pg.(swapOuted := true, swapIndex := slot)],
         swapDisk := WriteSlot(v.swapDisk, slot, v.mem[pte.frame]))
    else if pte.dirty then
      w.(ptes := v.ptes[k := gone.(dirty := false)],
         files := v.files[pg.file.value :=
           FileWrite(v.files[pg.file.value], pg.filepos, v.mem[pte.frame][..pg.readBytes])])
    else w.(ptes := v.ptes[k := gone])
  }

  /** Whether page_fault can get a frame: one is free, or there is a slot and a
      frame without the stack bit. */
  predicate CanEvict(v: Vm)
    requires forall k :: k in v.frameTable ==> k in v.ptes
  {
    Scan(v.swapUsed, 0, 1, false).Some? && VictimIndex(v.ptes, v.frameTable).Some?
  }

  /** A fresh, zeroed page table: `n` entries from page `first` on. */
  function EmptyTable(pid: nat, first: nat, n: nat): (r: map<Key, Pte>)
    ensures forall k :: k in r <==> k.pid == pid && first <= k.page < first + n
    ensures forall k :: k in r ==> r[k] == EMPTY_PTE
  {
    if n == 0 then map[] else EmptyTable(pid, first, n - 1)[Key(pid, first + n - 1) := EMPTY_PTE]
  }

  /** pagedir_set_page: creates the page table if it is missing. */
  function Mapped(ptes: map<Key, Pte>, k: Key, f: nat, writable: bool): (r: map<Key, Pte>)
    ensures k in r && r[k] == Pte(true, f, writable, false, false, false)
    ensures forall j :: j in ptes && j != k ==> j in r && r[j] == ptes[j]
    ensures forall j :: j in r && j !in ptes && j != k ==> r[j] == EMPTY_PTE
  {
    var tables := if k in ptes then ptes else EmptyTable(k.pid, k.page / 1024 * 1024, 1024) + ptes;
    tables[k := Pte(true, f, writable, false, false, false)]
  }

  /** Stack growth: a new zero page. */
  function Grown(v: Vm, k: Key, f: nat): Vm
  {
    v.(spt := v.spt[k := Page(None, 0, 0, true, false, false, 0)],
       ptes := Mapped(v.ptes, k, f, true),
       frameTable := v.frameTable + [k])
  }

  /** Lazy load from the file. */
  function Loaded(v: Vm, k: Key, f: nat): Vm
    requires Shape(v) && k in v.spt && KeyOk(v, k) && f < |v.mem|
    requires !Resident(v, k) && !v.spt[k].swapOuted
  {
    var pg := v.spt[k];
    v.(mem := v.mem[f := FilePage(v.files[pg.file.value], pg.filepos, pg.readBytes)],
       ptes := Mapped(v.ptes, k, f, pg.writable),
       frameTable := v.frameTable + [k])
  }

  /** Swap in. */
  function SwappedIn(v: Vm, k: Key, f: nat): Vm
    requires Shape(v) && k in v.spt && KeyOk(v, k) && f < |v.mem| && v.spt[k].swapOuted
  {
    var pg := v.spt[k];
    v.(mem := v.mem[f := ReadSlot(v.swapDisk, pg.swapIndex)],
       ptes := Mapped(v.ptes, k, f, pg.writable),
       spt := v.spt[k := pg.(swapOuted := false, swapIndex := 0)],
       swapUsed := v.swapUsed[pg.swapIndex := false],
       frameTable := v.frameTable + [k])
  }
}

/** What each piece of a page fault preserves. */
module PagingSteps {
  import opened Bitmaps
  import opened Storage
  import opened Sequences
  import opened Paging

  /** The step from `v` to `w` keeps the invariant and every page's bytes. */
  ghost predicate Faithful(v: Vm, w: Vm)
  {
    Inv(v) && Inv(w) && KeepsContents(v, w)
  }

  lemma FaithfulBoth(v: Vm, w: Vm)
    requires Faithful(v, w)
    ensures Inv(v) && Inv(w) && forall j :: j in v.spt ==> j in w.spt
  {
  }

  lemma FaithfulTransitive(u: Vm, v: Vm, w: Vm)
    requires Faithful(u, v) && Faithful(v, w)
    ensures Faithful(u, w)
  {
    forall k | k in u.spt
      ensures k in w.spt && SamePage(u.spt[k], w.spt[k])
      ensures Content(w, k)[..Kept(w.spt[k])] == Content(u, k)[..Kept(u.spt[k])]
    {
      assert k in v.spt;
    }
  }

  /** Changing only accessed and stack bits is invisible. */
  lemma BitsOnly(v: Vm, w: Vm)
    requires Inv(v)
    requires w == v.(ptes := w.ptes, esp := w.esp) && SoftChange(v.ptes, w.ptes)
    ensures Faithful(v, w)
  {
    assert forall k :: Resident(v, k) == Resident(w, k);
    forall k | k in v.spt ensures KeyOk(w, k) && Content(w, k) == Content(v, k) {
      assert KeyOk(v, k);
    }
  }

  lemma SoftTransitive(p: map<Key, Pte>, q: map<Key, Pte>, r: map<Key, Pte>)
    ensures SoftChange(p, p)
    ensures SoftChange(p, q) && SoftChange(q, r) ==> SoftChange(p, r)
  {
  }

  lemma EspKeeps(v: Vm, pid: nat, esp: nat)
    requires Inv(v) && pid in v.esp
    ensures Faithful(v, UpdateEsp(v, pid, esp))
  {
    hide Inv, Faithful, SetStack, SoftChange;
    var w := UpdateEsp(v, pid, esp);
    SoftTransitive(v.ptes, v.ptes, w.ptes);
    SoftTransitive(v.ptes, SetStack(v.ptes, KeyOf(pid, v.esp[pid]), false), w.ptes);
    BitsOnly(v, w);
  }

  ghost predicate Unmapped(v: Vm, f: nat)
  {
    f < |v.mem| && f < |v.used| && v.used[f] && forall k :: Resident(v, k) ==> v.ptes[k].frame != f
  }

  /** Handing out a free frame touches no page. */
  lemma AllocationKeeps(v: Vm, f: nat)
    requires Inv(v) && f < |v.used| && !v.used[f]
    ensures Faithful(v, Allocated(v, f)) && Unmapped(Allocated(v, f), f)
  {
    var w := Allocated(v, f);
    assert forall k :: Resident(v, k) == Resident(w, k);
    forall k | k in v.spt ensures KeyOk(w, k) && Content(w, k) == Content(v, k) {
      assert KeyOk(v, k);
    }
  }

  /** Evicting the resident page `k`: it moves to the slot or back to its file,
      and every other page stays where it is. */
  lemma SwapOutKeeps(v: Vm, k: Key, slot: nat, table: seq<Key>)
    requires Inv(v) && Resident(v, k) && slot < |v.swapUsed| && !v.swapUsed[slot]
    requires Distinct(table)
    requires forall j :: j in table <==> Resident(v, j) && j != k
    ensures Faithful(v, SwappedOut(v, k, slot).(frameTable := table))
  {
    hide Resident, DistinctFrames, DistinctSlots, NoOtherWriter, FrameTableOk, SwappedOut, KeptBy, Faithful;
    SwapOutShape(v, k, slot);
    SwapOutGlobals(v, k, slot, table);
    var w := SwappedOut(v, k, slot).(frameTable := table);
    forall j | j in v.spt ensures KeptBy(v, w, j) {
      KeySurvives(v, k, slot, table, j);
    }
    Assemble(v, w);
  }

  /** Page `j` is in order in both states and has the same attributes and bytes. */
  ghost predicate KeptBy(v: Vm, w: Vm, j: Key)
  {
    && Shape(v) && Shape(w) && j in v.spt && j in w.spt && KeyOk(v, j) && KeyOk(w, j)
    && SamePage(v.spt[j], w.spt[j])
    && Content(w, j)[..Kept(w.spt[j])] == Content(v, j)[..Kept(v.spt[j])]
  }

  lemma Assemble(v: Vm, w: Vm)
    requires Inv(v) && Shape(w)
    requires forall j :: Resident(w, j) ==> j in w.spt
    requires forall j :: j in v.spt ==> KeptBy(v, w, j)
    requires forall j :: j in w.spt && j !in v.spt ==> KeyOk(w, j)
    requires DistinctFrames(w) && DistinctSlots(w) && NoOtherWriter(w) && FrameTableOk(w)
    ensures Faithful(v, w)
  {
    hide Resident, DistinctFrames, DistinctSlots, NoOtherWriter, FrameTableOk, Shape, KeyOk, Content;
    forall j | j in w.spt ensures KeyOk(w, j) {
      assert j in v.spt ==> KeptBy(v, w, j);
    }
  }

  lemma KeySurvives(v: Vm, k: Key, slot: nat, table: seq<Key>, j: Key)
    requires Inv(v) && Resident(v, k) && slot < |v.swapUsed| && !v.swapUsed[slot] && j in v.spt
    ensures KeptBy(v, SwappedOut(v, k, slot).(frameTable := table), j)
  {
    SwapOutShape(v, k, slot);
    var x := SwappedOut(v, k, slot);
    assert KeyOk(v, j);
    hide Inv, SwappedOut;
    if j == k {
      VictimMoved(v, k, slot);
    } else {
      BystanderStays(v, k, slot, j);
    }
    TableIsElsewhere(x, table, j);
  }

  /** The frame table plays no part in what a page holds. */
  lemma TableIsElsewhere(v: Vm, table: seq<Key>, k: Key)
    requires Shape(v) && k in v.spt && KeyOk(v, k)
    ensures var w := v.(frameTable := table); Shape(w) && KeyOk(w, k) && Content(w, k) == Content(v, k)
  {
  }

  lemma SwapOutShape(v: Vm, k: Key, slot: nat)
    requires Inv(v) && Resident(v, k) && slot < |v.swapUsed|
    ensures KeyOk(v, k) && Shape(SwappedOut(v, k, slot)) && SwappedOut(v, k, slot).spt.Keys == v.spt.Keys
    ensures SwappedOut(v, k, slot).esp == v.esp && |SwappedOut(v, k, slot).used| == |v.used|
    ensures v.ptes[k].frame < |v.used| && !SwappedOut(v, k, slot).used[v.ptes[k].frame]
    ensures forall j :: Resident(SwappedOut(v, k, slot), j) ==> Resident(v, j)
  {
    if !v.spt[k].mmaped {
      SlotRoundTrip(v.swapDisk, slot, v.mem[v.ptes[k].frame], slot);
    }
  }

  lemma SwapOutGlobals(v: Vm, k: Key, slot: nat, table: seq<Key>)
    requires Inv(v) && Resident(v, k) && slot < |v.swapUsed| && !v.swapUsed[slot]
    requires Distinct(table)
    requires forall j :: j in table <==> Resident(v, j) && j != k
    ensures var w := SwappedOut(v, k, slot).(frameTable := table);
      && (forall j :: Resident(w, j) ==> j in w.spt)
      && DistinctFrames(w) && DistinctSlots(w) && NoOtherWriter(w) && FrameTableOk(w)
  {
    assert KeyOk(v, k);
    var w := SwappedOut(v, k, slot).(frameTable := table);
    assert forall j :: Resident(w, j) == (j != k && Resident(v, j));
    assert DistinctSlots(w) by {
      hide DistinctFrames, NoOtherWriter, FrameTableOk;
      forall j | j in v.spt && j != k && v.spt[j].swapOuted ensures v.spt[j].swapIndex != slot {
        assert KeyOk(v, j);
      }
    }
    hide KeyOk, DistinctSlots;
  }

  lemma VictimMoved(v: Vm, k: Key, slot: nat)
    requires Inv(v) && Resident(v, k) && slot < |v.swapUsed| && !v.swapUsed[slot]
    requires Shape(SwappedOut(v, k, slot))
    ensures var w := SwappedOut(v, k, slot);
      && KeyOk(w, k) && SamePage(v.spt[k], w.spt[k])
      && Content(w, k)[..Kept(w.spt[k])] == Content(v, k)[..Kept(v.spt[k])]
  {
    var w := SwappedOut(v, k, slot);
    var f := v.ptes[k].frame;
    assert KeyOk(v, k);
    if !v.spt[k].mmaped {
      SlotRoundTrip(v.swapDisk, slot, v.mem[f], slot);
    }
  }

  lemma BystanderStays(v: Vm, k: Key, slot: nat, j: Key)
    requires Inv(v) && Resident(v, k) && slot < |v.swapUsed| && !v.swapUsed[slot]
    requires Shape(SwappedOut(v, k, slot)) && j in v.spt && j != k
    ensures var w := SwappedOut(v, k, slot);
      && w.spt[j] == v.spt[j] && KeyOk(w, j) && Content(w, j) == Content(v, j)
  {
    var w := SwappedOut(v, k, slot);
    var pg, q := v.spt[k], v.spt[j];
    assert KeyOk(v, k) && KeyOk(v, j);
    if !pg.mmaped {
      if q.swapOuted {
        SlotRoundTrip(v.swapDisk, slot, v.mem[v.ptes[k].frame], q.swapIndex);
      }
    } else if v.ptes[k].dirty && q.file == pg.file {
      var data := v.mem[v.ptes[k].frame][..pg.readBytes];
      SliceApart(v.files[pg.file.value], pg.filepos, data, q.filepos, q.readBytes);
    }
  }

  lemma SliceApart(file: seq<Byte>, pos: nat, data: seq<Byte>, p: nat, n: nat)
    requires pos + |data| <= |file| && p + n <= |file|
    requires p + n <= pos || pos + |data| <= p
    ensures FileWrite(file, pos, data)[p..p + n] == file[p..p + n]
  {
  }

  /** Mapping page `k` to a frame nobody uses. */
  lemma MapIn(v: Vm, w: Vm, k: Key, f: nat, writable: bool)
    requires Inv(v) && !Resident(v, k) && Unmapped(v, f)
    requires w.ptes == Mapped(v.ptes, k, f, writable) && w.frameTable == v.frameTable + [k]
    ensures forall j :: Resident(w, j) == (j == k || Resident(v, j))
    ensures forall j :: Resident(v, j) ==> w.ptes[j] == v.ptes[j]
    ensures DistinctFrames(w) && FrameTableOk(w)
  {
    hide Mapped, KeyOk, Shape, DistinctSlots, NoOtherWriter;
    assert forall j :: Resident(w, j) == (j == k || Resident(v, j));
    assert k !in v.frameTable;
  }

  /** A page that does not live in frame `f` is not disturbed by filling it. */
  lemma Untouched(v: Vm, w: Vm, f: nat, j: Key)
    requires Shape(v) && Shape(w) && j in v.spt && KeyOk(v, j) && j in w.spt && w.spt[j] == v.spt[j]
    requires f < |v.mem| == |w.mem| && w.mem == v.mem[f := w.mem[f]] && w.used == v.used
    requires w.files == v.files && w.swapDisk == v.swapDisk && |w.swapUsed| == |v.swapUsed|
    requires v.spt[j].swapOuted ==> w.swapUsed[v.spt[j].swapIndex]
    requires Resident(w, j) == Resident(v, j)
    requires Resident(v, j) ==> w.ptes[j] == v.ptes[j] && v.ptes[j].frame != f
    ensures KeyOk(w, j) && Content(w, j) == Content(v, j)
  {
  }

  /** Stack growth adds one zero page and touches no other. */
  lemma GrowthKeeps(v: Vm, k: Key, f: nat)
    requires Inv(v) && k !in v.spt && Unmapped(v, f) && v.mem[f] == Filled(0)
    ensures Faithful(v, Grown(v, k, f))
    ensures Resident(Grown(v, k, f), k) && k in Grown(v, k, f).spt && Content(Grown(v, k, f), k) == Filled(0)
  {
    hide Inv, Resident, Unmapped, DistinctFrames, DistinctSlots, NoOtherWriter, FrameTableOk, Grown, KeptBy, Faithful,
         Shape, KeyOk, Content;
    GrowthGlobals(v, k, f);
    var w := Grown(v, k, f);
    GrowthKeys(v, k, f);
    forall j | j in v.spt ensures KeptBy(v, w, j) {
      GrowthKey(v, k, f, j);
    }
    Assemble(v, w);
  }

  lemma GrowthGlobals(v: Vm, k: Key, f: nat)
    requires Inv(v) && k !in v.spt && Unmapped(v, f) && v.mem[f] == Filled(0)
    ensures var w := Grown(v, k, f);
      && Shape(w) && k in w.spt && KeyOk(w, k) && Resident(w, k) && Content(w, k) == Filled(0)
      && DistinctFrames(w) && FrameTableOk(w) && DistinctSlots(w) && NoOtherWriter(w)
      && (forall j :: Resident(w, j) ==> j in w.spt)
  {
    var w := Grown(v, k, f);
    MapIn(v, w, k, f, true);
    assert DistinctSlots(w) && NoOtherWriter(w);
    hide Mapped, DistinctFrames, FrameTableOk, DistinctSlots, NoOtherWriter;
    assert KeyOk(w, k);
  }

  lemma GrowthKeys(v: Vm, k: Key, f: nat)
    requires Inv(v) && k !in v.spt && Unmapped(v, f)
    ensures forall j :: j in Grown(v, k, f).spt <==> j in v.spt || j == k
  {
  }

  lemma GrowthKey(v: Vm, k: Key, f: nat, j: Key)
    requires Inv(v) && k !in v.spt && Unmapped(v, f) && v.mem[f] == Filled(0) && j in v.spt
    ensures KeptBy(v, Grown(v, k, f), j)
  {
    var w := Grown(v, k, f);
    MapIn(v, w, k, f, true);
    assert KeyOk(v, j);
    hide Inv, Mapped, DistinctFrames, FrameTableOk, DistinctSlots, NoOtherWriter, Resident;
    Untouched(v, w, f, j);
  }

  /** Lazy loading brings in the bytes the page already stood for. */
  lemma LoadKeeps(v: Vm, k: Key, f: nat)
    requires Inv(v) && k in v.spt && !Resident(v, k) && !v.spt[k].swapOuted && Unmapped(v, f)
    ensures Faithful(v, Loaded(v, k, f)) && Resident(Loaded(v, k, f), k)
  {
    LoadGlobals(v, k, f);
    var w := Loaded(v, k, f);
    assert w.spt == v.spt;
    hide Inv, Resident, Unmapped, DistinctFrames, DistinctSlots, NoOtherWriter, FrameTableOk, Loaded, KeptBy, Faithful,
         Shape, KeyOk, Content;
    forall j | j in v.spt ensures KeptBy(v, w, j) {
      LoadKey(v, k, f, j);
    }
    Assemble(v, w);
  }

  lemma LoadGlobals(v: Vm, k: Key, f: nat)
    requires Inv(v) && k in v.spt && !Resident(v, k) && !v.spt[k].swapOuted && Unmapped(v, f)
    ensures KeyOk(v, k)
    ensures var w := Loaded(v, k, f);
      && Shape(w) && Resident(w, k) && KeyOk(w, k) && Content(w, k) == Content(v, k)
      && DistinctFrames(w) && FrameTableOk(w) && DistinctSlots(w) && NoOtherWriter(w)
      && (forall j :: Resident(w, j) ==> j in w.spt)
  {
    assert KeyOk(v, k);
    var w := Loaded(v, k, f);
    MapIn(v, w, k, f, v.spt[k].writable);
    assert DistinctSlots(w) && NoOtherWriter(w);
    hide Mapped, DistinctFrames, FrameTableOk, DistinctSlots, NoOtherWriter;
    assert KeyOk(w, k) && Content(w, k) == Content(v, k);
  }

  lemma LoadKey(v: Vm, k: Key, f: nat, j: Key)
    requires Inv(v) && k in v.spt && !Resident(v, k) && !v.spt[k].swapOuted && Unmapped(v, f) && j in v.spt
    ensures KeyOk(v, k) && KeptBy(v, Loaded(v, k, f), j)
  {
    LoadGlobals(v, k, f);
    var w := Loaded(v, k, f);
    if j != k {
      MapIn(v, w, k, f, v.spt[k].writable);
      assert KeyOk(v, j);
      hide Inv, Mapped, DistinctFrames, FrameTableOk, DistinctSlots, NoOtherWriter, Resident;
      Untouched(v, w, f, j);
    } else {
      hide Inv, Mapped, DistinctFrames, FrameTableOk, DistinctSlots, NoOtherWriter, Resident, Content, Shape;
    }
  }

  /** Swapping in brings back the slot and frees it. */
  lemma SwapInKeeps(v: Vm, k: Key, f: nat)
    requires Inv(v) && k in v.spt && v.spt[k].swapOuted && Unmapped(v, f)
    ensures Faithful(v, SwappedIn(v, k, f)) && Resident(SwappedIn(v, k, f), k)
  {
    SwapInGlobals(v, k, f);
    var w := SwappedIn(v, k, f);
    assert w.spt.Keys == v.spt.Keys;
    hide Inv, Resident, Unmapped, DistinctFrames, DistinctSlots, NoOtherWriter, FrameTableOk, SwappedIn, KeptBy,
         Faithful, Shape, KeyOk, Content;
    forall j | j in v.spt ensures KeptBy(v, w, j) {
      SwapInKey(v, k, f, j);
    }
    Assemble(v, w);
  }

  lemma SwapInGlobals(v: Vm, k: Key, f: nat)
    requires Inv(v) && k in v.spt && v.spt[k].swapOuted && Unmapped(v, f)
    ensures KeyOk(v, k) && !Resident(v, k)
    ensures var w := SwappedIn(v, k, f);
      && Shape(w) && KeyOk(w, k) && Resident(w, k) && DistinctFrames(w) && FrameTableOk(w) && DistinctSlots(w) && NoOtherWriter(w)
      && (forall j :: Resident(w, j) ==> j in w.spt)
  {
    assert KeyOk(v, k);
    var w := SwappedIn(v, k, f);
    MapIn(v, w, k, f, v.spt[k].writable);
    SwapInLands(v, k, f);
  }

  lemma SwapInKey(v: Vm, k: Key, f: nat, j: Key)
    requires Inv(v) && k in v.spt && v.spt[k].swapOuted && Unmapped(v, f) && j in v.spt
    ensures KeyOk(v, k) && KeptBy(v, SwappedIn(v, k, f), j)
  {
    SwapInGlobals(v, k, f);
    var w := SwappedIn(v, k, f);
    if j != k {
      MapIn(v, w, k, f, v.spt[k].writable);
      SlotFreed(v, k, f);
      assert KeyOk(v, j);
      hide Inv, Mapped, DistinctFrames, FrameTableOk, DistinctSlots, NoOtherWriter, Resident;
      Untouched(v, w, f, j);
    } else {
      SwapInLands(v, k, f);
      hide Inv, Mapped, DistinctFrames, FrameTableOk, DistinctSlots, NoOtherWriter, Resident, Content, Shape;
    }
  }

  lemma SwapInLands(v: Vm, k: Key, f: nat)
    requires Inv(v) && k in v.spt && v.spt[k].swapOuted && Unmapped(v, f) && !Resident(v, k)
    ensures var w := SwappedIn(v, k, f);
      && Shape(w) && KeyOk(w, k) && Content(w, k) == Content(v, k)
      && DistinctSlots(w) && NoOtherWriter(w)
  {
    assert KeyOk(v, k);
    SwapInSlots(v, k, f);
    hide DistinctFrames, FrameTableOk, DistinctSlots, NoOtherWriter;
  }

  lemma SwapInSlots(v: Vm, k: Key, f: nat)
    requires Inv(v) && k in v.spt && v.spt[k].swapOuted && f < |v.mem| && KeyOk(v, k)
    ensures DistinctSlots(SwappedIn(v, k, f)) && NoOtherWriter(SwappedIn(v, k, f))
  {
    hide KeyOk, DistinctFrames, FrameTableOk, Content, Resident;
  }

  lemma SlotFreed(v: Vm, k: Key, f: nat)
    requires Inv(v) && k in v.spt && v.spt[k].swapOuted && f < |v.mem|
    ensures KeyOk(v, k)
    ensures forall j :: j in v.spt && j != k && v.spt[j].swapOuted ==> SwappedIn(v, k, f).swapUsed[v.spt[j].swapIndex]
  {
    assert KeyOk(v, k);
    forall j | j in v.spt && j != k && v.spt[j].swapOuted
      ensures SwappedIn(v, k, f).swapUsed[v.spt[j].swapIndex]
    {
      assert KeyOk(v, j);
    }
  }
}
