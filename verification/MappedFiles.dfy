/**
 Memory-mapped files: the page entries made by SYS_MMAP
 (src/userprog/syscall.c), write-back on eviction (src/userprog/exception.c) and
 munmap_list (src/threads/thread.c) with frame_elem_delete (src/vm/swap.c).
 */
module MappedFiles {
  import opened Bitmaps
  import opened Storage
  import opened Sequences
  import opened Paging
  import opened PagingSteps
  import opened PageFaults
  import opened MemoryRuns

  // ----- mapping -----

  function PageCount(total: nat): nat
  {
    (total + PGSIZE - 1) / PGSIZE
  }

  /** The entry for page `i` of a mapping of a `total`-byte file. */
  function MappingPage(file: FileId, total: nat, i: nat): Page
    requires PGSIZE * i < total
  {
    var left := total - PGSIZE * i;
    Page(Some(file), PGSIZE * i, if left < PGSIZE then left else PGSIZE, true, true, false, 0)
  }

  predicate InRange(k: Key, pid: nat, first: nat, end: nat)
  {
    k.pid == pid && first <= k.page < end
  }

  function Entered(spt: map<Key, Page>, pid: nat, start: nat, file: FileId, total: nat, n: nat): (r: map<Key, Page>)
    requires n <= PageCount(total)
    ensures forall k :: k in r <==> k in spt || InRange(k, pid, start, start + n)
    ensures forall k :: k in r ==>
      r[k] == if InRange(k, pid, start, start + n) then MappingPage(file, total, k.page - start) else spt[k]
  {
    if n == 0 then spt
    else Entered(spt, pid, start, file, total, n - 1)[Key(pid, start + n - 1) := MappingPage(file, total, n - 1)]
  }

  /** SYS_MMAP: refused for an empty file, for address zero, and when any page of
      the range already has an entry. */
  function Mmap(v: Vm, pid: nat, start: nat, file: FileId): (r: Option<Vm>)
    requires file in v.files
  {
    var total := |v.files[file]|;
    if total == 0 || start == 0 || exists k :: k in v.spt && InRange(k, pid, start, start + PageCount(total)) then None
    else Some(v.(spt := Entered(v.spt, pid, start, file, total, PageCount(total))))
  }

  /** The call takes an address, which must be that of a page. */
  function MmapAt(v: Vm, pid: nat, addr: nat, file: FileId): (r: Option<Vm>)
    requires file in v.files
  {
    if addr % PGSIZE != 0 then None else Mmap(v, pid, addr / PGSIZE, file)
  }

  /** Exactly when a mapping is made, and exactly which pages it adds. */
  lemma MmapIff(v: Vm, pid: nat, addr: nat, file: FileId)
    requires file in v.files
    ensures var r, total, start := MmapAt(v, pid, addr, file), |v.files[file]|, addr / PGSIZE;
      && (r.Some? <==>
          && total > 0 && addr != 0 && addr % PGSIZE == 0
          && forall k :: k in v.spt && k.pid == pid && k.page >= start ==> PGSIZE * (k.page - start) >= total)
      && (r.Some? ==> r.value == v.(spt := r.value.spt))
      && (r.Some? ==> forall k :: k in r.value.spt <==>
          k in v.spt || (k.pid == pid && k.page >= start && PGSIZE * (k.page - start) < total))
  {
    var total, start := |v.files[file]|, addr / PGSIZE;
    forall k: Key ensures InRange(k, pid, start, start + PageCount(total)) <==>
      k.pid == pid && k.page >= start && PGSIZE * (k.page - start) < total
    {
      PagesOf(total, k.page - start);
    }
    hide PageCount;
  }

  lemma PagesOf(total: nat, i: int)
    ensures i < PageCount(total) <==> PGSIZE * i < total
  {
  }

  /** Pages `i` and up of the mapping are in the table. */
  ghost predicate Mapping(v: Vm, pid: nat, start: nat, file: FileId, total: nat, i: nat)
  {
    forall k :: InRange(k, pid, start + i, start + PageCount(total)) ==>
      k in v.spt && SamePage(v.spt[k], MappingPage(file, total, k.page - start))
  }

  /** A fresh mapping shows the file, then zeros up to the end of its last page, and
      disturbs no other page. */
  lemma MmapShowsFile(v: Vm, pid: nat, start: nat, file: FileId)
    requires Inv(v) && file in v.files && Mmap(v, pid, start, file).Some?
    requires forall k :: k in v.spt ==> v.spt[k].file != Some(file)
    ensures var w := Mmap(v, pid, start, file).value;
      var total := |v.files[file]|;
      && Faithful(v, w) && Mapping(w, pid, start, file, total, 0)
      && (forall p :: 0 <= p < total ==> ByteAt(w, Key(pid, start + p / PGSIZE), p % PGSIZE) == v.files[file][p])
      && forall p: nat :: PGSIZE * (p / PGSIZE) < total <= p ==> MappedByte(w, pid, start, p) == 0
  {
    hide Faithful, Mmap, Inv, Mapping;
    var w := Mmap(v, pid, start, file).value;
    var total := |v.files[file]|;
    MmapFaithful(v, pid, start, file);
    FaithfulBoth(v, w);
    MmapEnters(v, pid, start, file);
    forall p: nat | PGSIZE * (p / PGSIZE) < total <= p ensures MappedByte(w, pid, start, p) == 0 {
      FreshByte(v, w, pid, start, file, p);
    }
    forall p | 0 <= p < total
      ensures ByteAt(w, Key(pid, start + p / PGSIZE), p % PGSIZE) == v.files[file][p]
    {
      FreshByte(v, w, pid, start, file, p);
    }
  }

  lemma MmapEnters(v: Vm, pid: nat, start: nat, file: FileId)
    requires file in v.files && Mmap(v, pid, start, file).Some?
    ensures Mapping(Mmap(v, pid, start, file).value, pid, start, file, |v.files[file]|, 0)
  {
  }

  lemma FreshKey(v: Vm, w: Vm, pid: nat, start: nat, file: FileId, k: Key)
    requires Inv(v) && Inv(w) && file in v.files && Mmap(v, pid, start, file) == Some(w)
    requires InRange(k, pid, start, start + PageCount(|v.files[file]|))
    ensures k in w.spt && KeyOk(w, k) && !Resident(w, k)
    ensures w.spt[k] == MappingPage(file, |v.files[file]|, k.page - start) && w.files == v.files
  {
    hide DistinctFrames, DistinctSlots, NoOtherWriter, FrameTableOk, KeyOk, Shape;
    assert k !in v.spt && !Resident(v, k);
  }

  lemma FreshByte(v: Vm, w: Vm, pid: nat, start: nat, file: FileId, p: nat)
    requires Inv(v) && Inv(w) && file in v.files && Mmap(v, pid, start, file) == Some(w)
    requires PGSIZE * (p / PGSIZE) < |v.files[file]|
    ensures ByteAt(w, Key(pid, start + p / PGSIZE), p % PGSIZE) == if p < |v.files[file]| then v.files[file][p] else 0
  {
    hide Inv, Mmap, Resident, FilePage, PageCount, KeyOk, Shape;
    var total, i := |v.files[file]|, p / PGSIZE;
    var k, pg := Key(pid, start + i), MappingPage(file, total, i);
    PagesOf(total, i);
    assert InRange(k, pid, start, start + PageCount(total));
    FreshKey(v, w, pid, start, file, k);
    FilePageByte(v.files[file], pg.filepos, pg.readBytes, p % PGSIZE);
  }

  lemma MmapFaithful(v: Vm, pid: nat, start: nat, file: FileId)
    requires Inv(v) && file in v.files && Mmap(v, pid, start, file).Some?
    requires forall k :: k in v.spt ==> v.spt[k].file != Some(file)
    ensures Faithful(v, Mmap(v, pid, start, file).value)
  {
    var w := Mmap(v, pid, start, file).value;
    assert forall k :: k in v.spt ==> k in w.spt && w.spt[k] == v.spt[k];
    assert forall k :: Resident(w, k) == Resident(v, k);
    NewPagesApart(v, w, pid, start, file);
    hide DistinctSlots, NoOtherWriter, Mmap, KeptBy;
    forall k | k in v.spt ensures KeptBy(v, w, k) {
      OldPageKept(v, w, k);
    }
    forall k | k in w.spt && k !in v.spt ensures KeyOk(w, k) {
      NewPageOk(v, w, pid, start, file, k);
    }
    Assemble(v, w);
  }

  lemma OldPageKept(v: Vm, w: Vm, k: Key)
    requires Inv(v) && w == v.(spt := w.spt) && k in v.spt && k in w.spt && w.spt[k] == v.spt[k]
    ensures KeptBy(v, w, k)
  {
    assert KeyOk(v, k);
  }

  lemma NewPageOk(v: Vm, w: Vm, pid: nat, start: nat, file: FileId, k: Key)
    requires Inv(v) && file in v.files && Mmap(v, pid, start, file) == Some(w) && k in w.spt && k !in v.spt
    ensures Shape(w) && KeyOk(w, k) && !Resident(w, k)
  {
    assert !Resident(v, k);
  }

  lemma NewPagesApart(v: Vm, w: Vm, pid: nat, start: nat, file: FileId)
    requires Inv(v) && file in v.files && Mmap(v, pid, start, file) == Some(w)
    requires forall k :: k in v.spt ==> v.spt[k].file != Some(file)
    ensures NoOtherWriter(w) && DistinctSlots(w)
  {
    hide KeyOk, Shape, DistinctFrames, FrameTableOk;
    assert forall k :: k in v.spt ==> k in w.spt && w.spt[k] == v.spt[k];
    forall j, k | j in w.spt && k in w.spt && j != k && w.spt[j].mmaped ensures Apart(w.spt[j], w.spt[k]) {
      if j !in v.spt && k !in v.spt {
        var a, b := j.page - start, k.page - start;
        if a < b {
          assert PGSIZE * a + PGSIZE <= PGSIZE * b;
        } else {
          assert PGSIZE * b + PGSIZE <= PGSIZE * a;
        }
      }
    }
  }

  // ----- unmapping -----

  /** Some mapped page stands for byte `p` of `file`. */
  ghost predicate Covered(v: Vm, file: FileId, p: nat)
  {
    exists k :: k in v.spt && Covers(v.spt[k], file, p)
  }

  predicate Covers(pg: Page, file: FileId, p: nat)
  {
    pg.mmaped && pg.file == Some(file) && pg.filepos <= p < pg.filepos + pg.readBytes
  }

  /** Between `v` and `w`, files change only where a mapped page covers them. */
  ghost predicate FilesFrame(v: Vm, w: Vm)
  {
    && w.files.Keys == v.files.Keys
    && forall f :: f in v.files ==> |w.files[f]| == |v.files[f]| && SameUncovered(v, w, f)
  }

  ghost predicate SameUncovered(v: Vm, w: Vm, f: FileId)
    requires f in v.files && f in w.files && |w.files[f]| == |v.files[f]|
  {
    forall p :: 0 <= p < |v.files[f]| && !Covered(v, f, p) ==> w.files[f][p] == v.files[f][p]
  }

  /** The user buffer is read through the page tables, so a page that is not
      resident is faulted in first. */
  ghost function FaultedIn(v: Vm, k: Key, esp: nat): Option<Vm>
    requires Inv(v)
  {
    if Resident(v, k) then Some(v)
    else if CanFault(v, k.pid, esp) then Some(PageFault(v, k.pid, k.page * PGSIZE, esp).vm)
    else None
  }

  ghost function WrittenBack(v: Vm, k: Key): Vm
    requires Inv(v) && k in v.spt && v.spt[k].mmaped
  {
    assert KeyOk(v, k);
    var pg := v.spt[k];
    v.(files := v.files[pg.file.value := FileWrite(v.files[pg.file.value], pg.filepos, Content(v, k)[..pg.readBytes])])
  }

  /** frame_elem_delete and hash_delete. */
  ghost function Dropped(v: Vm, k: Key): Vm
    requires Inv(v) && k in v.spt
  {
    assert KeyOk(v, k);
    var w := v.(spt := v.spt - {k}, frameTable := Without(v.frameTable, k));
    if Resident(v, k) then
      w.(ptes := v.ptes[k := v.ptes[k].(accessed := true, present := false)],
         used := v.used[v.ptes[k].frame := false],
         mem := v.mem[v.ptes[k].frame := Filled(0xcc)])
    else w
  }

  function Without(t: seq<Key>, k: Key): (r: seq<Key>)
    ensures forall j :: j in r <==> j in t && j != k
  {
    if t == [] then []
    else
      assert forall j :: j in t <==> j == t[0] || j in t[1..];
      (if t[0] == k then [] else [t[0]]) + Without(t[1..], k)
  }

  lemma {:induction false} WithoutDistinct(t: seq<Key>, k: Key)
    requires Distinct(t)
    ensures Distinct(Without(t, k))
  {
    if t != [] {
      WithoutDistinct(t[1..], k);
      var r := Without(t[1..], k);
      assert t[0] !in t[1..];
      forall b | 0 <= b < |r| ensures r[b] != t[0] {
        assert r[b] in r;
      }
      var h := if t[0] == k then [] else [t[0]];
      assert Without(t, k) == h + r;
      forall a, b | 0 <= a < b < |h + r| ensures (h + r)[a] != (h + r)[b] {
        assert (h + r)[b] == r[b - |h|];
        if a >= |h| {
          assert (h + r)[a] == r[a - |h|];
        }
      }
    }
  }

  /** One page of munmap_list.  The dirty bit is tested before the buffer is read. */
  ghost function UnmapOne(v: Vm, k: Key, esp: nat): Option<Vm>
    requires Inv(v) && k in v.spt && v.spt[k].mmaped
  {
    if k in v.ptes && v.ptes[k].dirty then
      match FaultedIn(v, k, esp)
      case None => None
      case Some(u) =>
        FaultedInKeeps(v, k, esp);
        WriteBackKeeps(u, k);
        Some(Dropped(WrittenBack(u, k), k))
    else Some(Dropped(v, k))
  }

  lemma FaultedInKeeps(v: Vm, k: Key, esp: nat)
    requires Inv(v) && k in v.spt && FaultedIn(v, k, esp).Some?
    ensures var u := FaultedIn(v, k, esp).value; Faithful(v, u) && u.spt.Keys == v.spt.Keys
  {
    hide PageFault, CanFault, Inv, Faithful;
    if Resident(v, k) {
      BitsOnly(v, v);
    } else {
      assert KeyOf(k.pid, k.page * PGSIZE) == k;
      FaultIsFaithful(v, k.pid, k.page * PGSIZE, esp);
      var u := PageFault(v, k.pid, k.page * PGSIZE, esp).vm;
      FaithfulBoth(v, u);
      assert forall j :: j in u.spt <==> j in v.spt;
    }
  }

  lemma WriteBackKeeps(v: Vm, k: Key)
    requires Inv(v) && k in v.spt && v.spt[k].mmaped
    ensures var w := WrittenBack(v, k); Faithful(v, w) && w.spt == v.spt
  {
    assert KeyOk(v, k);
    var w := WrittenBack(v, k);
    assert forall j :: Resident(v, j) == Resident(w, j);
    assert DistinctFrames(w) && DistinctSlots(w) && NoOtherWriter(w) && FrameTableOk(w);
    hide DistinctFrames, DistinctSlots, NoOtherWriter, FrameTableOk, KeptBy, Content;
    forall j | j in v.spt ensures KeptBy(v, w, j) {
      WriteBackKey(v, k, j);
    }
    Assemble(v, w);
  }

  lemma WriteBackKey(v: Vm, k: Key, j: Key)
    requires Inv(v) && k in v.spt && v.spt[k].mmaped && j in v.spt
    ensures KeptBy(v, WrittenBack(v, k), j)
  {
    assert KeyOk(v, k) && KeyOk(v, j);
    var pg, q := v.spt[k], v.spt[j];
    if j == k {
      WriteBackSelf(v, k);
    } else if q.file == pg.file {
      WriteBackOther(v, k, j);
    } else {
      hide Inv, ReadSlot, FilePage;
    }
  }

  /** The page and its file agree afterwards. */
  lemma WriteBackSelf(v: Vm, k: Key)
    requires Inv(v) && k in v.spt && v.spt[k].mmaped
    ensures KeptBy(v, WrittenBack(v, k), k)
  {
    assert KeyOk(v, k);
    hide DistinctFrames, DistinctSlots, NoOtherWriter, FrameTableOk, ReadSlot;
  }

  /** Another page of the file is of another part of it. */
  lemma WriteBackOther(v: Vm, k: Key, j: Key)
    requires Inv(v) && k in v.spt && v.spt[k].mmaped && j in v.spt && j != k && v.spt[j].file == v.spt[k].file
    ensures KeptBy(v, WrittenBack(v, k), j)
  {
    hide DistinctFrames, DistinctSlots, FrameTableOk, ReadSlot, FileWrite, FilePage;
    assert KeyOk(v, k) && KeyOk(v, j) && Apart(v.spt[k], v.spt[j]);
    hide NoOtherWriter;
    var pg, q := v.spt[k], v.spt[j];
    var f, data := v.files[pg.file.value], Content(v, k)[..pg.readBytes];
    SliceApart(f, pg.filepos, data, q.filepos, q.readBytes);
    SameFilePage(f, FileWrite(f, pg.filepos, data), q.filepos, q.readBytes);
  }

  lemma SameFilePage(a: seq<Byte>, b: seq<Byte>, pos: nat, n: nat)
    requires n <= PGSIZE && pos + n <= |a| == |b| && a[pos..pos + n] == b[pos..pos + n]
    ensures FilePage(a, pos, n) == FilePage(b, pos, n)
  {
  }

  /** Dropping a page removes its frame and entry and leaves every other page. */
  lemma DropKeeps(v: Vm, k: Key)
    requires Inv(v) && k in v.spt
    ensures var w := Dropped(v, k);
      && Inv(w) && w.spt == v.spt - {k} && w.files == v.files
      && !Resident(w, k) && k !in w.frameTable
      && forall j :: j in w.spt ==> KeptBy(v, w, j)
  {
    hide DistinctFrames, DistinctSlots, NoOtherWriter, FrameTableOk, KeptBy, KeyOk, Shape, Resident, Dropped;
    var w := Dropped(v, k);
    DropGlobals(v, k);
    DropShape(v, k);
    forall j | j in w.spt ensures KeptBy(v, w, j) && KeyOk(w, j) {
      DropKey(v, k, j);
    }
  }

  lemma DropShape(v: Vm, k: Key)
    requires Inv(v) && k in v.spt
    ensures var w := Dropped(v, k);
      && Shape(w) && w.spt == v.spt - {k} && w.files == v.files && !Resident(w, k) && k !in w.frameTable
      && (forall j :: Resident(w, j) ==> j in w.spt)
  {
    hide DistinctFrames, DistinctSlots, NoOtherWriter, FrameTableOk;
    assert KeyOk(v, k);
    var w := Dropped(v, k);
    assert forall j :: Resident(w, j) == (j != k && Resident(v, j));
  }

  lemma DropGlobals(v: Vm, k: Key)
    requires Inv(v) && k in v.spt
    ensures var w := Dropped(v, k); DistinctFrames(w) && DistinctSlots(w) && NoOtherWriter(w) && FrameTableOk(w)
  {
    assert KeyOk(v, k);
    hide KeyOk, Shape;
    var w := Dropped(v, k);
    assert forall j :: Resident(w, j) == (j != k && Resident(v, j));
    WithoutDistinct(v.frameTable, k);
  }

  lemma DropKey(v: Vm, k: Key, j: Key)
    requires Inv(v) && k in v.spt && j in v.spt && j != k
    ensures Shape(Dropped(v, k)) && j in Dropped(v, k).spt && KeyOk(Dropped(v, k), j) && KeptBy(v, Dropped(v, k), j)
  {
    assert KeyOk(v, k) && KeyOk(v, j);
  }

  /** An eviction writes to files only through the mapped page it evicts. */
  lemma SwapOutFiles(v: Vm, k: Key, slot: nat)
    requires Inv(v) && Resident(v, k) && slot < |v.swapUsed|
    ensures KeyOk(v, k) && FilesFrame(v, SwappedOut(v, k, slot))
  {
    assert KeyOk(v, k);
    var w := SwappedOut(v, k, slot);
    forall f | f in v.files ensures |w.files[f]| == |v.files[f]| && SameUncovered(v, w, f) {
      forall p | 0 <= p < |v.files[f]| && !Covered(v, f, p) ensures w.files[f][p] == v.files[f][p] {
        assert !Covers(v.spt[k], f, p);
      }
    }
  }

  lemma EvictFiles(v: Vm)
    requires Inv(v) && (forall k :: k in v.frameTable ==> k in v.ptes) && CanEvict(v)
    ensures FilesFrame(v, Evicted(v))
  {
    hide FilesFrame, Evicted, SwappedOut, CanEvict;
    var s, i, slot := EvictedForm(v);
    SwapOutFiles(s, v.frameTable[i], slot);
    FrameOnFiles(s, SwappedOut(s, v.frameTable[i], slot), v, Evicted(v));
  }

  /** The files after a page fault are those after its eviction, if any. */
  lemma FaultFiles(v: Vm, pid: nat, addr: nat, esp: nat)
    requires Inv(v) && CanFault(v, pid, esp)
    ensures FilesFrame(v, PageFault(v, pid, addr, esp).vm)
  {
    hide FilesFrame, WithFrame;
    var u := FaultForm(v, pid, addr, esp);
    WithFrameFiles(u);
    FrameOnFiles(u, WithFrame(u).0, v, PageFault(v, pid, addr, esp).vm);
  }

  lemma FaultForm(v: Vm, pid: nat, addr: nat, esp: nat) returns (u: Vm)
    requires Inv(v) && CanFault(v, pid, esp)
    ensures Inv(u) && u.spt == v.spt && u.files == v.files && CanGetFrame(u)
    ensures PageFault(v, pid, addr, esp).vm.files == WithFrame(u).0.files
  {
    hide Inv, Faithful, WithFrame, CanGetFrame, Resolve, Unmapped;
    EspKeeps(v, pid, esp);
    u := UpdateEsp(v, pid, esp);
    FaithfulBoth(v, u);
    WithFrameKeeps(u);
  }

  lemma WithFrameFiles(v: Vm)
    requires Inv(v) && CanGetFrame(v)
    ensures FilesFrame(v, WithFrame(v).0)
  {
    TableInPtes(v);
    hide Inv, FilesFrame, Evicted, CanEvict;
    var w := WithFrame(v).0;
    if FreeFrame(v).None? {
      EvictionKeeps(v);
      EvictFiles(v);
      FrameOnFiles(v, Evicted(v), v, w);
    } else {
      FrameOnFiles(v, v, v, w);
    }
  }

  /** Only entries and files matter to what is covered. */
  lemma FrameOnFiles(s: Vm, t: Vm, v: Vm, w: Vm)
    requires s.spt == v.spt && s.files == v.files && t.files == w.files
    requires FilesFrame(s, t) || t.files == s.files
    ensures FilesFrame(v, w)
  {
    assert forall f, p :: Covered(s, f, p) == Covered(v, f, p);
  }

  // ----- one page of munmap -----

  function Slice(v: Vm, pg: Page): seq<Byte>
    requires pg.file.Some? && pg.file.value in v.files && pg.filepos + pg.readBytes <= |v.files[pg.file.value]|
  {
    v.files[pg.file.value][pg.filepos..pg.filepos + pg.readBytes]
  }

  /** The page is gone, the file holds its bytes, and nothing else moved. */
  ghost predicate UnmappedTo(v: Vm, k: Key, w: Vm)
    requires Inv(v) && k in v.spt
  {
    var pg := v.spt[k];
    && Inv(w) && w.spt.Keys == v.spt.Keys - {k} && !Resident(w, k) && k !in w.frameTable
    && (forall j :: j in w.spt ==> KeptBy(v, w, j))
    && FilesFrame(v, w)
    && pg.file.Some? && pg.file.value in w.files && pg.filepos + pg.readBytes <= |w.files[pg.file.value]|
    && pg.readBytes <= PGSIZE
    && KeyOk(v, k) && Slice(w, pg) == Content(v, k)[..pg.readBytes]
  }

  lemma FaithfulKey(v: Vm, w: Vm, j: Key)
    requires Faithful(v, w) && j in v.spt
    ensures KeptBy(v, w, j)
  {
  }

  lemma KeptTransitive(u: Vm, v: Vm, w: Vm, j: Key)
    requires KeptBy(u, v, j) && KeptBy(v, w, j)
    ensures KeptBy(u, w, j)
  {
  }

  lemma FilesFrameTransitive(u: Vm, v: Vm, w: Vm)
    requires FilesFrame(u, v) && FilesFrame(v, w)
    requires forall j :: j in v.spt ==> j in u.spt && SamePage(u.spt[j], v.spt[j])
    ensures FilesFrame(u, w)
  {
    forall f | f in u.files ensures |w.files[f]| == |u.files[f]| && SameUncovered(u, w, f) {
      forall p | 0 <= p < |u.files[f]| && !Covered(u, f, p) ensures w.files[f][p] == u.files[f][p] {
        assert SameUncovered(u, v, f) && SameUncovered(v, w, f);
        forall j | j in v.spt ensures !Covers(v.spt[j], f, p) {
          assert !Covers(u.spt[j], f, p);
        }
      }
    }
  }

  lemma WriteBackFiles(v: Vm, k: Key)
    requires Inv(v) && k in v.spt && v.spt[k].mmaped
    ensures KeyOk(v, k) && FilesFrame(v, WrittenBack(v, k))
    ensures Slice(WrittenBack(v, k), v.spt[k]) == Content(v, k)[..v.spt[k].readBytes]
  {
    assert KeyOk(v, k);
    var w := WrittenBack(v, k);
    forall f | f in v.files ensures |w.files[f]| == |v.files[f]| && SameUncovered(v, w, f) {
      forall p | 0 <= p < |v.files[f]| && !Covered(v, f, p) ensures w.files[f][p] == v.files[f][p] {
        assert !Covers(v.spt[k], f, p);
      }
    }
  }

  /** A page whose dirty bit is clear already agrees with its file. */
  lemma CleanUnmap(v: Vm, k: Key)
    requires Inv(v) && k in v.spt && v.spt[k].mmaped && !(k in v.ptes && v.ptes[k].dirty)
    ensures UnmappedTo(v, k, Dropped(v, k))
  {
    assert KeyOk(v, k);
    DropKeeps(v, k);
    assert Slice(v, v.spt[k]) == Content(v, k)[..v.spt[k].readBytes];
    hide Inv, Content, KeyOk, KeptBy;
  }

  lemma KeptFacts(v: Vm, w: Vm, j: Key)
    requires KeptBy(v, w, j)
    ensures j in v.spt && j in w.spt && Shape(v) && Shape(w) && KeyOk(v, j) && KeyOk(w, j)
    ensures SamePage(v.spt[j], w.spt[j])
    ensures v.spt[j].mmaped ==> w.spt[j].mmaped && w.spt[j].file.Some?
  {
  }

  lemma DirtyUnmap(v: Vm, u: Vm, k: Key)
    requires Faithful(v, u) && u.spt.Keys == v.spt.Keys && FilesFrame(v, u)
    requires k in v.spt && v.spt[k].mmaped
    ensures k in u.spt && u.spt[k].mmaped && Inv(u) && Inv(WrittenBack(u, k))
    ensures UnmappedTo(v, k, Dropped(WrittenBack(u, k), k))
  {
    hide Inv, KeptBy, Content, KeyOk, Dropped, WrittenBack, Faithful, FilesFrame, Shape, Slice;
    FaithfulKey(v, u, k);
    FaithfulBoth(v, u);
    KeptFacts(v, u, k);
    WriteBackKeeps(u, k);
    WriteBackFiles(u, k);
    var x := WrittenBack(u, k);
    FaithfulBoth(u, x);
    DropKeeps(x, k);
    var w := Dropped(x, k);
    forall j | j in w.spt ensures KeptBy(v, w, j) {
      KeptThrough(v, u, x, w, j);
    }
    forall j | j in u.spt ensures j in v.spt && SamePage(v.spt[j], u.spt[j]) {
      FaithfulKey(v, u, j);
      KeptFacts(v, u, j);
    }
    FilesFrameTransitive(v, u, x);
    FilesOnly(v, x, w);
    SameSlice(v, u, x, w, k);
  }

  lemma KeptThrough(v: Vm, u: Vm, x: Vm, w: Vm, j: Key)
    requires Faithful(v, u) && Faithful(u, x) && KeptBy(x, w, j) && j in v.spt
    ensures KeptBy(v, w, j)
  {
    FaithfulKey(v, u, j);
    FaithfulKey(u, x, j);
    KeptTransitive(v, u, x, j);
    KeptTransitive(v, x, w, j);
  }

  lemma FilesOnly(v: Vm, x: Vm, w: Vm)
    requires FilesFrame(v, x) && w.files == x.files
    ensures FilesFrame(v, w)
  {
  }

  lemma SameSlice(v: Vm, u: Vm, x: Vm, w: Vm, k: Key)
    requires KeptBy(v, u, k) && v.spt[k].mmaped && FilesFrame(u, x) && w.files == x.files
    requires Slice(x, u.spt[k]) == Content(u, k)[..u.spt[k].readBytes]
    ensures var pg := v.spt[k];
      && pg.file.Some? && pg.file.value in w.files && pg.filepos + pg.readBytes <= |w.files[pg.file.value]|
      && pg.readBytes <= PGSIZE && Slice(w, pg) == Content(v, k)[..pg.readBytes]
  {
  }

  lemma UnmapOneEffect(v: Vm, k: Key, esp: nat)
    requires Inv(v) && k in v.spt && v.spt[k].mmaped && UnmapOne(v, k, esp).Some?
    ensures UnmappedTo(v, k, UnmapOne(v, k, esp).value)
  {
    if k in v.ptes && v.ptes[k].dirty {
      FaultedInKeeps(v, k, esp);
      var u := FaultedIn(v, k, esp).value;
      FaultedInFiles(v, k, esp);
      DirtyUnmap(v, u, k);
    } else {
      CleanUnmap(v, k);
    }
  }

  lemma FaultedInFiles(v: Vm, k: Key, esp: nat)
    requires Inv(v) && FaultedIn(v, k, esp).Some?
    ensures FilesFrame(v, FaultedIn(v, k, esp).value)
  {
    if !Resident(v, k) {
      hide PageFault, FilesFrame;
      FaultFiles(v, k.pid, k.page * PGSIZE, esp);
    }
  }

  // ----- the whole of munmap -----

  /** munmap_list on pages `i` up to `n` of a mapping at page `start`; `None` if a
      page had to be faulted in and no frame could be had. */
  ghost function Munmap(v: Vm, pid: nat, start: nat, file: FileId, total: nat, i: nat, esp: nat): Option<Vm>
    requires Inv(v) && i <= PageCount(total) && Mapping(v, pid, start, file, total, i)
    decreases PageCount(total) - i
  {
    if i == PageCount(total) then Some(v)
    else
      var k := Key(pid, start + i);
      assert InRange(k, pid, start + i, start + PageCount(total));
      match UnmapOne(v, k, esp)
      case None => None
      case Some(w) =>
        UnmapOneEffect(v, k, esp);
        MappingShrinks(v, w, pid, start, file, total, i);
        Munmap(w, pid, start, file, total, i + 1, esp)
  }

  /** Entries that keep their attributes still form the mapping. */
  lemma MappingFollows(v: Vm, w: Vm, pid: nat, start: nat, file: FileId, total: nat, i: nat, j: nat)
    requires i <= j && Mapping(v, pid, start, file, total, i)
    requires forall k :: InRange(k, pid, start + j, start + PageCount(total)) && k in v.spt ==>
      k in w.spt && SamePage(v.spt[k], w.spt[k])
    ensures Mapping(w, pid, start, file, total, j)
  {
    forall k | InRange(k, pid, start + j, start + PageCount(total))
      ensures k in w.spt && SamePage(w.spt[k], MappingPage(file, total, k.page - start))
    {
      assert InRange(k, pid, start + i, start + PageCount(total));
    }
  }

  lemma MappingShrinks(v: Vm, w: Vm, pid: nat, start: nat, file: FileId, total: nat, i: nat)
    requires Inv(v) && i < PageCount(total) && Mapping(v, pid, start, file, total, i)
    requires Key(pid, start + i) in v.spt && UnmappedTo(v, Key(pid, start + i), w)
    ensures Mapping(w, pid, start, file, total, i + 1)
  {
    forall k | InRange(k, pid, start + i + 1, start + PageCount(total)) && k in v.spt
      ensures k in w.spt && SamePage(v.spt[k], w.spt[k])
    {
      UnmapKeepsOther(v, w, Key(pid, start + i), k);
    }
    MappingFollows(v, w, pid, start, file, total, i, i + 1);
  }

  lemma UnmapKeepsOther(v: Vm, w: Vm, k: Key, j: Key)
    requires Inv(v) && k in v.spt && UnmappedTo(v, k, w) && j in v.spt && j != k
    ensures j in w.spt && KeptBy(v, w, j) && SamePage(v.spt[j], w.spt[j])
  {
    assert KeptBy(v, w, j);
  }

  /** The byte of the mapping that stands for byte `p` of the file. */
  ghost function MappedByte(v: Vm, pid: nat, start: nat, p: nat): Byte
    requires Inv(v)
  {
    ByteAt(v, Key(pid, start + p / PGSIZE), p % PGSIZE)
  }

  /** Byte `p` of the file in `w` is what the mapping shows in `v`. */
  ghost predicate Shown(w: Vm, file: FileId, p: nat, v: Vm, pid: nat, start: nat)
  {
    Inv(v) && file in w.files && p < |w.files[file]| && w.files[file][p] == MappedByte(v, pid, start, p)
  }

  /** No entry, no frame and no present page table entry is left in the range. */
  ghost predicate Gone(w: Vm, pid: nat, first: nat, end: nat)
  {
    forall k :: InRange(k, pid, first, end) ==> k !in w.spt && !Resident(w, k) && k !in w.frameTable
  }

  /** Every page outside the range is there with the same attributes and bytes. */
  ghost predicate OthersStay(v: Vm, w: Vm, pid: nat, first: nat, end: nat)
  {
    forall k :: k in v.spt && !InRange(k, pid, first, end) ==> KeptBy(v, w, k)
  }

  /** After munmap the file holds what the mapping showed, the pages and frames
      are gone and no other page is, and files are otherwise as they were. */
  lemma {:induction false} MunmapWritesBack(v: Vm, pid: nat, start: nat, file: FileId, total: nat, i: nat, esp: nat)
    requires Inv(v) && i <= PageCount(total) && Mapping(v, pid, start, file, total, i)
    requires Munmap(v, pid, start, file, total, i, esp).Some?
    ensures var w := Munmap(v, pid, start, file, total, i, esp).value;
      && Inv(w) && FilesFrame(v, w) && w.spt.Keys <= v.spt.Keys
      && Gone(w, pid, start + i, start + PageCount(total)) && OthersStay(v, w, pid, start + i, start + PageCount(total))
      && (forall p :: PGSIZE * i <= p < total ==> Shown(w, file, p, v, pid, start))
    decreases PageCount(total) - i
  {
    hide Inv, UnmapOne, UnmappedTo, FilesFrame, Gone, Shown, OthersStay;
    if i == PageCount(total) {
      MunmapDone(v, pid, start, file, total);
    } else {
      var k := Key(pid, start + i);
      assert InRange(k, pid, start + i, start + PageCount(total));
      assert k in v.spt && v.spt[k].mmaped;
      hide Mapping;
      UnmapOneEffect(v, k, esp);
      var u := UnmapOne(v, k, esp).value;
      UnmapFacts(v, u, k);
      MappingShrinks(v, u, pid, start, file, total, i);
      MunmapWritesBack(u, pid, start, file, total, i + 1, esp);
      var w := Munmap(u, pid, start, file, total, i + 1, esp).value;
      MunmapStep(v, u, w, pid, start, file, total, i);
      OthersToo(v, u, w, pid, start + i, start + PageCount(total));
    }
  }

  lemma OthersToo(v: Vm, u: Vm, w: Vm, pid: nat, first: nat, end: nat)
    requires Inv(v) && Key(pid, first) in v.spt && UnmappedTo(v, Key(pid, first), u) && first < end
    requires OthersStay(u, w, pid, first + 1, end)
    ensures OthersStay(v, w, pid, first, end)
  {
    hide Inv, UnmappedTo, KeptBy;
    forall k | k in v.spt && !InRange(k, pid, first, end) ensures KeptBy(v, w, k) {
      UnmapKeepsOther(v, u, Key(pid, first), k);
      assert !InRange(k, pid, first + 1, end);
      KeptTransitive(v, u, w, k);
    }
  }

  lemma MunmapDone(v: Vm, pid: nat, start: nat, file: FileId, total: nat)
    requires Inv(v)
    ensures FilesFrame(v, v) && Gone(v, pid, start + PageCount(total), start + PageCount(total))
    ensures OthersStay(v, v, pid, start + PageCount(total), start + PageCount(total)) && total <= PGSIZE * PageCount(total)
  {
    assert forall f :: f in v.files ==> SameUncovered(v, v, f);
  }

  lemma UnmapFacts(v: Vm, w: Vm, k: Key)
    requires Inv(v) && k in v.spt && UnmappedTo(v, k, w)
    ensures Inv(w) && FilesFrame(v, w) && w.spt.Keys == v.spt.Keys - {k}
  {
  }

  lemma MunmapStep(v: Vm, u: Vm, w: Vm, pid: nat, start: nat, file: FileId, total: nat, i: nat)
    requires Inv(v) && i < PageCount(total) && Mapping(v, pid, start, file, total, i)
    requires Key(pid, start + i) in v.spt && UnmappedTo(v, Key(pid, start + i), u)
    requires Inv(w) && FilesFrame(u, w) && w.spt.Keys <= u.spt.Keys
    requires Gone(w, pid, start + i + 1, start + PageCount(total))
    requires forall p :: PGSIZE * (i + 1) <= p < total ==> Shown(w, file, p, u, pid, start)
    ensures FilesFrame(v, w)
    ensures Gone(w, pid, start + i, start + PageCount(total))
    ensures forall p :: PGSIZE * i <= p < total ==> Shown(w, file, p, v, pid, start)
  {
    hide FilesFrame, Gone, Shown, Inv, UnmappedTo;
    UnmapFacts(v, u, Key(pid, start + i));
    forall j | j in u.spt ensures j in v.spt && SamePage(v.spt[j], u.spt[j]) {
      UnmapKeepsOther(v, u, Key(pid, start + i), j);
    }
    FilesFrameTransitive(v, u, w);
    GoneToo(v, u, w, pid, start, i, start + PageCount(total));
    forall p | PGSIZE * i <= p < total ensures Shown(w, file, p, v, pid, start) {
      if p < PGSIZE * (i + 1) {
        ThisPage(v, u, w, pid, start, file, total, i, p);
      } else {
        assert Shown(w, file, p, u, pid, start);
        LaterPage(v, u, w, pid, start, file, total, i, p);
      }
    }
  }

  lemma GoneToo(v: Vm, u: Vm, w: Vm, pid: nat, start: nat, i: nat, end: nat)
    requires Inv(v) && Inv(w) && Key(pid, start + i) in v.spt && UnmappedTo(v, Key(pid, start + i), u)
    requires w.spt.Keys <= u.spt.Keys && Gone(w, pid, start + i + 1, end)
    ensures Gone(w, pid, start + i, end)
  {
    hide Inv, UnmappedTo, Resident;
    UnmapFacts(v, u, Key(pid, start + i));
    forall k | InRange(k, pid, start + i, end)
      ensures k !in w.spt && !Resident(w, k) && k !in w.frameTable
    {
      if k.page > start + i {
        assert InRange(k, pid, start + i + 1, end);
      } else {
        assert k !in u.spt;
        NotResident(w, k);
      }
    }
  }

  lemma NotResident(w: Vm, k: Key)
    requires Inv(w) && k !in w.spt
    ensures !Resident(w, k) && k !in w.frameTable
  {
  }

  lemma ThisPage(v: Vm, u: Vm, w: Vm, pid: nat, start: nat, file: FileId, total: nat, i: nat, p: nat)
    requires Inv(v) && i < PageCount(total) && Mapping(v, pid, start, file, total, i)
    requires Key(pid, start + i) in v.spt && UnmappedTo(v, Key(pid, start + i), u) && FilesFrame(u, w)
    requires PGSIZE * i <= p < total && p < PGSIZE * (i + 1)
    ensures Shown(w, file, p, v, pid, start)
  {
    var k := Key(pid, start + i);
    assert InRange(k, pid, start + i, start + PageCount(total));
    var pg := v.spt[k];
    assert SamePage(pg, MappingPage(file, total, i));
    var o := p - PGSIZE * i;
    assert p / PGSIZE == i && p % PGSIZE == o;
    assert Slice(u, pg)[o] == Content(v, k)[..pg.readBytes][o];
    NoLongerCovered(v, u, k, file, p);
    hide Content, KeyOk, DistinctFrames, DistinctSlots, NoOtherWriter, FrameTableOk;
    assert SameUncovered(u, w, file);
  }

  lemma NoLongerCovered(v: Vm, u: Vm, k: Key, file: FileId, p: nat)
    requires Inv(v) && k in v.spt && UnmappedTo(v, k, u) && Covers(v.spt[k], file, p)
    ensures !Covered(u, file, p)
  {
    forall j | j in u.spt ensures !Covers(u.spt[j], file, p) {
      assert KeptBy(v, u, j);
      assert Apart(v.spt[k], v.spt[j]);
    }
  }

  lemma LaterPage(v: Vm, u: Vm, w: Vm, pid: nat, start: nat, file: FileId, total: nat, i: nat, p: nat)
    requires Inv(v) && i < PageCount(total) && Mapping(v, pid, start, file, total, i)
    requires Key(pid, start + i) in v.spt && UnmappedTo(v, Key(pid, start + i), u)
    requires PGSIZE * (i + 1) <= p < total && Shown(w, file, p, u, pid, start)
    ensures Shown(w, file, p, v, pid, start)
  {
    hide Inv, UnmappedTo;
    var k := Key(pid, start + p / PGSIZE);
    assert InRange(k, pid, start + i, start + PageCount(total));
    UnmapKeepsOther(v, u, Key(pid, start + i), k);
    var pg := v.spt[k];
    assert SamePage(pg, MappingPage(file, total, p / PGSIZE));
    hide Mapping, KeyOk, Shape, Resident;
    assert p % PGSIZE < pg.readBytes;
    assert Content(v, k)[..pg.readBytes][p % PGSIZE] == Content(u, k)[..pg.readBytes][p % PGSIZE];
  }

  // ----- when munmap finds no frame -----

  ghost predicate HasFree(v: Vm)
  {
    exists f :: 0 <= f < |v.used| && !v.used[f]
  }

  /** The page will be faulted in: its entry is dirty from before, and not present. */
  predicate Stuck(v: Vm, k: Key)
  {
    !Resident(v, k) && k in v.ptes && v.ptes[k].dirty
  }

  /** The page has no frame and takes none. */
  predicate Idle(v: Vm, k: Key)
  {
    !Resident(v, k) && !(k in v.ptes && v.ptes[k].dirty)
  }

  lemma FreeIsFound(v: Vm)
    ensures FreeFrame(v).Some? <==> HasFree(v)
  {
    if HasFree(v) {
      var f :| 0 <= f < |v.used| && !v.used[f];
      assert Group(v.used, f, 1, false);
    }
  }

  lemma FreeCanFault(v: Vm, pid: nat, esp: nat)
    requires Inv(v) && pid in v.esp && HasFree(v)
    ensures CanFault(v, pid, esp)
  {
    EspKeeps(v, pid, esp);
    hide Inv, Faithful, SetStack;
    var u := UpdateEsp(v, pid, esp);
    FaithfulBoth(v, u);
    FreeIsFound(v);
    assert u.used == v.used;
    FreeIsFound(u);
  }

  lemma DropFrees(v: Vm, k: Key)
    requires Inv(v) && k in v.spt && Resident(v, k)
    ensures HasFree(Dropped(v, k)) && Dropped(v, k).esp == v.esp
  {
    assert KeyOk(v, k);
    var f := v.ptes[k].frame;
    assert !Dropped(v, k).used[f];
  }

  /** frame_elem_delete of a resident page: its frame is free and filled with the pattern
      of freed memory, its entry not present, and the frame table lacks it alone. */
  lemma DropEffect(v: Vm, k: Key) returns (a: seq<Key>, b: seq<Key>)
    requires Inv(v) && k in v.spt && Resident(v, k)
    ensures v.frameTable == a + [k] + b && Dropped(v, k).frameTable == a + b
    ensures var w, f := Dropped(v, k), v.ptes[k].frame;
      && f < |v.used| == |v.mem| && w.used == v.used[f := false] && w.mem == v.mem[f := Filled(0xcc)]
      && w.ptes == v.ptes[k := v.ptes[k].(present := false, accessed := true)]
      && w.swapUsed == v.swapUsed && w.swapDisk == v.swapDisk && w.files == v.files && w.esp == v.esp
  {
    assert KeyOk(v, k) && k in v.frameTable && Distinct(v.frameTable);
    a, b := WithoutSplit(v.frameTable, k);
    hide Inv, KeyOk, Without, Filled;
  }

  lemma {:induction false} WithoutSplit(t: seq<Key>, k: Key) returns (a: seq<Key>, b: seq<Key>)
    requires k in t && Distinct(t)
    ensures t == a + [k] + b && Without(t, k) == a + b
  {
    if t[0] == k {
      a, b := [], t[1..];
      WithoutNone(t[1..], k);
    } else {
      a, b := WithoutSplit(t[1..], k);
      a := [t[0]] + a;
    }
  }

  lemma {:induction false} WithoutNone(t: seq<Key>, k: Key)
    requires k !in t
    ensures Without(t, k) == t
  {
    if t != [] {
      WithoutNone(t[1..], k);
    }
  }

  lemma DropIdle(v: Vm, k: Key)
    requires Inv(v) && k in v.spt && !Resident(v, k)
    ensures Dropped(v, k) == v.(spt := v.spt - {k})
  {
    WithoutNone(v.frameTable, k);
  }

  lemma WrittenBackEntries(v: Vm, k: Key)
    requires Inv(v) && k in v.spt && v.spt[k].mmaped
    ensures var w := WrittenBack(v, k);
      Inv(w) && w.spt == v.spt && w.ptes == v.ptes && w.used == v.used && w.esp == v.esp
  {
    WriteBackKeeps(v, k);
    hide Inv, FileWrite, Content;
  }

  /** A page that is not idle leaves a free frame behind. */
  lemma UnmapFrees(v: Vm, k: Key, esp: nat)
    requires Inv(v) && k in v.spt && v.spt[k].mmaped && k.pid in v.esp
    requires Resident(v, k) || (Stuck(v, k) && CanFault(v, k.pid, esp))
    ensures UnmapOne(v, k, esp).Some? && HasFree(UnmapOne(v, k, esp).value) && k.pid in UnmapOne(v, k, esp).value.esp
  {
    hide Inv, CanFault, PageFault, HasFree, Dropped, WrittenBack, Faithful, Resolved;
    if !(k in v.ptes && v.ptes[k].dirty) {
      DropFrees(v, k);
    } else {
      FaultedInKeeps(v, k, esp);
      var u := FaultedIn(v, k, esp).value;
      FaultedInThere(v, k, esp);
      FaithfulBoth(v, u);
      FaithfulKey(v, u, k);
      KeptFacts(v, u, k);
      WrittenBackEntries(u, k);
      DropFrees(WrittenBack(u, k), k);
    }
  }

  lemma FaultedInThere(v: Vm, k: Key, esp: nat)
    requires Inv(v) && k in v.spt && k.pid in v.esp && FaultedIn(v, k, esp).Some?
    ensures Resident(FaultedIn(v, k, esp).value, k) && k.pid in FaultedIn(v, k, esp).value.esp
  {
    if !Resident(v, k) {
      assert KeyOf(k.pid, k.page * PGSIZE) == k;
      FaultIsFaithful(v, k.pid, k.page * PGSIZE, esp);
      EspStays(v, k.pid, k.page * PGSIZE, esp);
      hide Inv, CanFault, PageFault, Faithful;
    }
  }

  /** With a free frame at hand munmap never stops. */
  lemma {:induction false} MunmapWithFrame(v: Vm, pid: nat, start: nat, file: FileId, total: nat, i: nat, esp: nat)
    requires Inv(v) && i <= PageCount(total) && Mapping(v, pid, start, file, total, i) && pid in v.esp && HasFree(v)
    ensures Munmap(v, pid, start, file, total, i, esp).Some?
    decreases PageCount(total) - i
  {
    hide Inv, UnmappedTo, HasFree, PageCount, CanFault, PageFault, Dropped, WrittenBack;
    if i < PageCount(total) {
      var k := Key(pid, start + i);
      assert InRange(k, pid, start + i, start + PageCount(total));
      hide Mapping;
      if Idle(v, k) {
        DropIdle(v, k);
        StillFree(v, Dropped(v, k));
      } else {
        FreeCanFault(v, pid, esp);
        UnmapFrees(v, k, esp);
      }
      UnmapOneEffect(v, k, esp);
      var w := UnmapOne(v, k, esp).value;
      UnmapFacts(v, w, k);
      MappingShrinks(v, w, pid, start, file, total, i);
      MunmapWithFrame(w, pid, start, file, total, i + 1, esp);
    }
  }

  lemma StillFree(v: Vm, w: Vm)
    requires HasFree(v) && w.used == v.used
    ensures HasFree(w)
  {
  }

  /** Page `p` is stuck, and those before it from page `first` on are idle. */
  ghost predicate FirstStuck(v: Vm, pid: nat, first: nat, p: nat)
  {
    first <= p && Stuck(v, Key(pid, p)) && forall q :: first <= q < p ==> Idle(v, Key(pid, q))
  }

  ghost predicate MeetsStuck(v: Vm, pid: nat, first: nat, end: nat)
  {
    exists p: nat :: p < end && FirstStuck(v, pid, first, p)
  }

  /** Munmap stops, for want of a frame, exactly when none can be had and the first of
      the pages that is resident or dirty is not resident. */
  lemma {:induction false} MunmapStopsIff(v: Vm, pid: nat, start: nat, file: FileId, total: nat, i: nat, esp: nat)
    requires Inv(v) && i <= PageCount(total) && Mapping(v, pid, start, file, total, i) && pid in v.esp
    ensures Munmap(v, pid, start, file, total, i, esp).None? <==>
      !CanFault(v, pid, esp) && MeetsStuck(v, pid, start + i, start + PageCount(total))
    decreases PageCount(total) - i
  {
    hide Inv, UnmappedTo, HasFree, PageCount, CanFault, PageFault, Dropped, WrittenBack;
    var n := PageCount(total);
    if i < n {
      var k := Key(pid, start + i);
      assert InRange(k, pid, start + i, start + n);
      hide Mapping;
      if Stuck(v, k) && !CanFault(v, pid, esp) {
        assert FirstStuck(v, pid, start + i, start + i);
      } else {
        if Idle(v, k) {
          DropIdle(v, k);
        } else {
          UnmapFrees(v, k, esp);
          if Resident(v, k) {
            NoneStuck(v, pid, start + i, start + n);
          }
        }
        UnmapOneEffect(v, k, esp);
        var w := UnmapOne(v, k, esp).value;
        UnmapFacts(v, w, k);
        MappingShrinks(v, w, pid, start, file, total, i);
        if Idle(v, k) {
          MunmapStopsIff(w, pid, start, file, total, i + 1, esp);
          IdleFaults(v, w, pid, esp);
          IdleDropped(v, w, pid, start + i, start + n);
        } else {
          MunmapWithFrame(w, pid, start, file, total, i + 1, esp);
        }
      }
    }
  }

  lemma NoneStuck(v: Vm, pid: nat, first: nat, end: nat)
    requires Resident(v, Key(pid, first))
    ensures !MeetsStuck(v, pid, first, end)
  {
    forall p: nat | p < end ensures !FirstStuck(v, pid, first, p) {
      if first < p {
        assert !Idle(v, Key(pid, first));
      }
    }
  }

  lemma IdleDropped(v: Vm, w: Vm, pid: nat, first: nat, end: nat)
    requires Idle(v, Key(pid, first)) && w.ptes == v.ptes
    ensures MeetsStuck(v, pid, first, end) <==> MeetsStuck(w, pid, first + 1, end)
  {
    if MeetsStuck(v, pid, first, end) {
      var p: nat :| p < end && FirstStuck(v, pid, first, p);
      forall q | first + 1 <= q < p ensures Idle(w, Key(pid, q)) {
        assert Idle(v, Key(pid, q));
      }
      assert FirstStuck(w, pid, first + 1, p);
    }
    if MeetsStuck(w, pid, first + 1, end) {
      var p: nat :| p < end && FirstStuck(w, pid, first + 1, p);
      forall q | first <= q < p ensures Idle(v, Key(pid, q)) {
        assert q > first ==> Idle(w, Key(pid, q));
      }
      assert FirstStuck(v, pid, first, p);
    }
  }

  lemma IdleFaults(v: Vm, w: Vm, pid: nat, esp: nat)
    requires Inv(v) && Inv(w) && w == v.(spt := w.spt)
    ensures CanFault(w, pid, esp) <==> CanFault(v, pid, esp)
  {
    hide Inv, FirstClear, Scan, Faithful, SetStack;
    if pid in v.esp {
      EspKeeps(v, pid, esp);
      EspKeeps(w, pid, esp);
      var a, b := UpdateEsp(v, pid, esp), UpdateEsp(w, pid, esp);
      FaithfulBoth(v, a);
      FaithfulBoth(w, b);
      TableInPtes(a);
      TableInPtes(b);
    }
  }

  // ----- mmap, any run, munmap -----

  /** Entries keep their attributes over a run. */
  lemma {:induction false} RunKeepsMapping(vs: seq<Vm>, steps: seq<Step>, pid: nat, start: nat, file: FileId,
                                           total: nat)
    requires Run(vs, steps) && Mapping(vs[0], pid, start, file, total, 0)
    ensures Inv(vs[|steps|]) && Mapping(vs[|steps|], pid, start, file, total, 0)
  {
    if steps != [] {
      var n := |steps| - 1;
      RunPrefix(vs, steps, n);
      RunKeepsMapping(vs[..n + 1], steps[..n], pid, start, file, total);
      StepKeepsMapping(vs[n], steps[n], vs[n + 1], pid, start, file, total);
    }
  }

  lemma StepKeepsMapping(v: Vm, s: Step, w: Vm, pid: nat, start: nat, file: FileId, total: nat)
    requires Next(v, s, w) && Mapping(v, pid, start, file, total, 0)
    ensures Inv(w) && Mapping(w, pid, start, file, total, 0)
  {
    StepInv(v, s, w);
    StepPages(v, s, w);
    hide Next, Inv;
    MappingFollows(v, w, pid, start, file, total, 0, 0);
  }

  lemma StepPages(v: Vm, s: Step, w: Vm)
    requires Next(v, s, w)
    ensures forall k :: k in v.spt ==> k in w.spt && SamePage(v.spt[k], w.spt[k])
  {
    if s.Fault? {
      hide PageFault, CanFault;
      FaultIsFaithful(v, s.pid, s.addr, s.esp);
      hide Inv;
      forall k | k in v.spt ensures k in w.spt && SamePage(v.spt[k], w.spt[k]) {
        FaithfulKey(v, w, k);
      }
    }
  }

  /** Map a file, let any number of processes run, unmap it: every byte of the
      file is the one last written through the mapping, or the original one. */
  lemma MappedFileRoundTrip(v: Vm, pid: nat, start: nat, file: FileId, vs: seq<Vm>, steps: seq<Step>, esp: nat, w: Vm)
    requires Inv(v) && file in v.files && forall k :: k in v.spt ==> v.spt[k].file != Some(file)
    requires Run(vs, steps) && Mmap(v, pid, start, file) == Some(vs[0])
    requires Inv(vs[|steps|]) && Mapping(vs[|steps|], pid, start, file, |v.files[file]|, 0)
    requires Munmap(vs[|steps|], pid, start, file, |v.files[file]|, 0, esp) == Some(w)
    ensures Inv(w) && Gone(w, pid, start, start + PageCount(|v.files[file]|))
    ensures file in w.files && |w.files[file]| == |v.files[file]|
    ensures forall p :: 0 <= p < |v.files[file]| ==>
      w.files[file][p] == LastWritten(steps, Key(pid, start + p / PGSIZE), p % PGSIZE, v.files[file][p])
  {
    hide Inv, Faithful, Munmap, Gone, Mmap, Mapping, Next, Shown;
    var total := |v.files[file]|;
    MmapNotEmpty(v, pid, start, file);
    MmapShowsFile(v, pid, start, file);
    FaithfulBoth(v, vs[0]);
    MunmapWritesBack(vs[|steps|], pid, start, file, total, 0, esp);
    RunKeepsSizes(vs, steps);
    MmapFiles(v, pid, start, file);
    assert |w.files[file]| == |v.files[file]|;
    hide Run, FilesFrame, SameSizes;
    forall p | 0 <= p < total
      ensures file in w.files && p < |w.files[file]| &&
        w.files[file][p] == LastWritten(steps, Key(pid, start + p / PGSIZE), p % PGSIZE, v.files[file][p])
    {
      RoundTripByte(vs, steps, pid, start, file, total, w, p);
    }
    RoundTripByte(vs, steps, pid, start, file, total, w, total - 1);
  }

  ghost predicate SameSizes(v: Vm, w: Vm)
  {
    w.files.Keys == v.files.Keys && forall f :: f in v.files ==> |w.files[f]| == |v.files[f]|
  }

  lemma {:induction false} RunKeepsSizes(vs: seq<Vm>, steps: seq<Step>)
    requires Run(vs, steps)
    ensures SameSizes(vs[0], vs[|steps|])
  {
    if steps != [] {
      var n := |steps| - 1;
      RunPrefix(vs, steps, n);
      RunKeepsSizes(vs[..n + 1], steps[..n]);
      StepKeepsSizes(vs[n], steps[n], vs[n + 1]);
    }
  }

  lemma StepKeepsSizes(v: Vm, s: Step, w: Vm)
    requires Next(v, s, w)
    ensures SameSizes(v, w)
  {
    if s.Fault? {
      hide PageFault, CanFault;
      FaultFiles(v, s.pid, s.addr, s.esp);
    }
  }

  lemma MmapFiles(v: Vm, pid: nat, start: nat, file: FileId)
    requires file in v.files && Mmap(v, pid, start, file).Some?
    ensures Mmap(v, pid, start, file).value.files == v.files
  {
  }

  lemma MmapNotEmpty(v: Vm, pid: nat, start: nat, file: FileId)
    requires file in v.files && Mmap(v, pid, start, file).Some?
    ensures |v.files[file]| > 0
  {
  }

  lemma RoundTripByte(vs: seq<Vm>, steps: seq<Step>, pid: nat, start: nat, file: FileId, total: nat, w: Vm, p: nat)
    requires Run(vs, steps) && Mapping(vs[0], pid, start, file, total, 0) && p < total
    requires Shown(w, file, p, vs[|steps|], pid, start)
    ensures Inv(vs[0]) && file in w.files && p < |w.files[file]|
    ensures var k := Key(pid, start + p / PGSIZE);
      w.files[file][p] == LastWritten(steps, k, p % PGSIZE, ByteAt(vs[0], k, p % PGSIZE))
  {
    hide Inv, Next, Durable, LastWritten;
    MappedIsDurable(vs[0], pid, start, file, total, p);
    MemoryIsFlat(vs, steps, Key(pid, start + p / PGSIZE), p % PGSIZE);
  }

  lemma MappedIsDurable(v: Vm, pid: nat, start: nat, file: FileId, total: nat, p: nat)
    requires Mapping(v, pid, start, file, total, 0) && p < total
    ensures Durable(v, Key(pid, start + p / PGSIZE), p % PGSIZE)
  {
    assert InRange(Key(pid, start + p / PGSIZE), pid, start, start + PageCount(total));
  }

  /** The run theorem's assumptions on the last state always hold. */
  lemma MappingSurvives(v: Vm, pid: nat, start: nat, file: FileId, vs: seq<Vm>, steps: seq<Step>)
    requires Inv(v) && file in v.files && forall k :: k in v.spt ==> v.spt[k].file != Some(file)
    requires Run(vs, steps) && Mmap(v, pid, start, file) == Some(vs[0])
    ensures Inv(vs[|steps|]) && Mapping(vs[|steps|], pid, start, file, |v.files[file]|, 0)
  {
    MmapShowsFile(v, pid, start, file);
    RunKeepsMapping(vs, steps, pid, start, file, |v.files[file]|);
  }
}
