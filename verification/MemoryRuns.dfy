/**
 Whole runs: what a process sees of its memory over any interleaving of user
 reads, user writes and page faults, by any number of processes.
 */
module MemoryRuns {
  import opened Bitmaps
  import opened Storage
  import opened Paging
  import opened PagingSteps
  import opened PageFaults

  datatype Step =
    | UserRead(pid: nat, addr: nat, value: Byte)
    | UserWrite(pid: nat, addr: nat, value: Byte)
    | Fault(pid: nat, addr: nat, esp: nat)

  /** A user access goes through a present page table entry; the hardware sets
      the accessed bit, and on a write the dirty bit. */
  ghost predicate Next(v: Vm, s: Step, w: Vm)
  {
    Inv(v) &&
    var k, ofs := KeyOf(s.pid, s.addr), s.addr % PGSIZE;
    match s
    case UserRead(_, _, b) => Resident(v, k) && KeyOk(v, k) && b == v.mem[v.ptes[k].frame][ofs] && w == Touched(v, k)
    case UserWrite(_, _, b) => Resident(v, k) && v.ptes[k].writable && w == Stored(v, k, ofs, b)
    case Fault(pid, addr, esp) => CanFault(v, pid, esp) && w == PageFault(v, pid, addr, esp).vm
  }

  function Touched(v: Vm, k: Key): Vm
    requires k in v.ptes
  {
    v.(ptes := v.ptes[k := v.ptes[k].(accessed := true)])
  }

  function Stored(v: Vm, k: Key, ofs: nat, b: Byte): Vm
    requires k in v.ptes && v.ptes[k].frame < |v.mem| && ofs < |v.mem[v.ptes[k].frame]|
  {
    var f := v.ptes[k].frame;
    var page: PageData := v.mem[f][ofs := b];
    v.(ptes := v.ptes[k := v.ptes[k].(accessed := true, dirty := true)], mem := v.mem[f := page])
  }

  /** The byte at offset `ofs` of page `k`; a page that does not exist yet will
      start out as zeros. */
  ghost function ByteAt(v: Vm, k: Key, ofs: nat): Byte
    requires Inv(v) && ofs < PGSIZE
  {
    if k in v.spt then Content(v, k)[ofs] else 0
  }

  /** Bytes the system promises to keep: all of a private page, and the part of
      a mapped page that the file covers. */
  predicate Durable(v: Vm, k: Key, ofs: nat)
  {
    ofs < PGSIZE && (k in v.spt ==> ofs < Kept(v.spt[k]))
  }

  predicate Writes(s: Step, k: Key, ofs: nat)
  {
    s.UserWrite? && KeyOf(s.pid, s.addr) == k && s.addr % PGSIZE == ofs
  }

  // ----- one step -----

  lemma TouchKeeps(v: Vm, k: Key)
    requires Inv(v) && Resident(v, k)
    ensures Faithful(v, Touched(v, k))
  {
    BitsOnly(v, Touched(v, k));
  }

  /** A store changes one byte of one page. */
  lemma StoreKeeps(v: Vm, k: Key, ofs: nat, b: Byte)
    requires Inv(v) && Resident(v, k) && v.ptes[k].writable && ofs < PGSIZE
    ensures k in v.spt && KeyOk(v, k)
    ensures var w := Stored(v, k, ofs, b);
      && Inv(w) && w.spt == v.spt
      && forall j :: j in v.spt ==> Content(w, j) == if j == k then Content(v, k)[ofs := b] else Content(v, j)
  {
    assert KeyOk(v, k);
    var w := Stored(v, k, ofs, b);
    assert forall j :: Resident(v, j) == Resident(w, j);
    assert Shape(w) && DistinctFrames(w) && DistinctSlots(w) && NoOtherWriter(w) && FrameTableOk(w);
    hide Stored, Content, DistinctFrames, DistinctSlots, NoOtherWriter, FrameTableOk, Resident, KeyOk, Shape;
    forall j | j in v.spt
      ensures KeyOk(w, j) && Content(w, j) == if j == k then Content(v, k)[ofs := b] else Content(v, j)
    {
      StoreKey(v, k, ofs, b, j);
    }
  }

  lemma StoreKey(v: Vm, k: Key, ofs: nat, b: Byte, j: Key)
    requires Inv(v) && Resident(v, k) && v.ptes[k].writable && ofs < PGSIZE && j in v.spt
    ensures k in v.spt && KeyOk(v, k) && KeyOk(v, j)
    ensures var w := Stored(v, k, ofs, b);
      Shape(w) && w.spt == v.spt && KeyOk(w, j) && Content(w, j) == if j == k then Content(v, k)[ofs := b] else Content(v, j)
  {
    assert KeyOk(v, k) && KeyOk(v, j);
    hide ReadSlot, FilePage, FrameTableOk, DistinctSlots, NoOtherWriter;
  }

  /** Every step keeps the invariant and changes exactly the bytes it writes. */
  lemma StepEffect(v: Vm, s: Step, w: Vm, k: Key, ofs: nat)
    requires Next(v, s, w) && Durable(v, k, ofs)
    ensures Inv(w) && Durable(w, k, ofs)
    ensures ByteAt(w, k, ofs) == if Writes(s, k, ofs) then s.value else ByteAt(v, k, ofs)
  {
    var j, o := KeyOf(s.pid, s.addr), s.addr % PGSIZE;
    match s
    case UserRead(_, _, _) =>
      TouchKeeps(v, j);
      FaithfulByte(v, w, k, ofs);
    case UserWrite(_, _, b) =>
      StoreKeeps(v, j, o, b);
    case Fault(pid, addr, esp) =>
      FaultIsFaithful(v, pid, addr, esp);
      if k in v.spt {
        FaithfulByte(v, w, k, ofs);
      }
  }

  lemma FaithfulByte(v: Vm, w: Vm, k: Key, ofs: nat)
    requires Faithful(v, w) && Durable(v, k, ofs) && (k in v.spt || k !in w.spt)
    ensures Durable(w, k, ofs) && ByteAt(w, k, ofs) == ByteAt(v, k, ofs)
  {
    if k in v.spt {
      assert KeyOk(v, k) && KeyOk(w, k);
      assert Content(v, k)[..Kept(v.spt[k])][ofs] == Content(w, k)[..Kept(w.spt[k])][ofs];
    }
  }

  // ----- runs -----

  ghost predicate Run(vs: seq<Vm>, steps: seq<Step>)
  {
    && |vs| == |steps| + 1
    && Inv(vs[0])
    && forall i :: 0 <= i < |steps| ==> Next(vs[i], steps[i], vs[i + 1])
  }

  /** The last value written to a byte, or `init`. */
  ghost function LastWritten(steps: seq<Step>, k: Key, ofs: nat, init: Byte): Byte
  {
    if steps == [] then init
    else
      var s := steps[|steps| - 1];
      if Writes(s, k, ofs) then s.value else LastWritten(steps[..|steps| - 1], k, ofs, init)
  }

  /** At every point of every run the invariant holds, and every durable byte is
      the one last written to it, or its initial value. */
  lemma {:induction false} MemoryIsFlat(vs: seq<Vm>, steps: seq<Step>, k: Key, ofs: nat)
    requires Run(vs, steps) && Durable(vs[0], k, ofs)
    ensures Inv(vs[|steps|]) && Durable(vs[|steps|], k, ofs)
    ensures ByteAt(vs[|steps|], k, ofs) == LastWritten(steps, k, ofs, ByteAt(vs[0], k, ofs))
  {
    if steps != [] {
      var n := |steps| - 1;
      RunPrefix(vs, steps, n);
      MemoryIsFlat(vs[..n + 1], steps[..n], k, ofs);
      StepEffect(vs[n], steps[n], vs[n + 1], k, ofs);
    }
  }

  lemma RunPrefix(vs: seq<Vm>, steps: seq<Step>, n: nat)
    requires Run(vs, steps) && n <= |steps|
    ensures Run(vs[..n + 1], steps[..n])
  {
    hide Next, Inv;
    forall i | 0 <= i < n ensures Next(vs[..n + 1][i], steps[..n][i], vs[..n + 1][i + 1]) {
      assert Next(vs[i], steps[i], vs[i + 1]);
    }
  }

  /** Every read in every run returns the byte last written there. */
  lemma ReadsSeeLastWrite(vs: seq<Vm>, steps: seq<Step>, i: nat)
    requires Run(vs, steps) && i < |steps| && steps[i].UserRead?
    requires Durable(vs[0], KeyOf(steps[i].pid, steps[i].addr), steps[i].addr % PGSIZE)
    ensures var k, ofs := KeyOf(steps[i].pid, steps[i].addr), steps[i].addr % PGSIZE;
      steps[i].value == LastWritten(steps[..i], k, ofs, ByteAt(vs[0], k, ofs))
  {
    var k, ofs := KeyOf(steps[i].pid, steps[i].addr), steps[i].addr % PGSIZE;
    RunPrefix(vs, steps, i);
    MemoryIsFlat(vs[..i + 1], steps[..i], k, ofs);
    assert Next(vs[i], steps[i], vs[i + 1]);
  }

  /** Where runs start: processes whose pages are all still to be loaded from
      their executables. */
  ghost predicate NothingLoaded(v: Vm)
  {
    Shape(v) && v.frameTable == [] && (forall k :: !Resident(v, k)) && forall k :: k in v.spt ==> Unloaded(v, v.spt[k])
  }

  /** What a process finds at an address it has not written to: the bytes of its
      executable, and zeros after them and wherever the stack grows. */
  function InitialByte(v: Vm, k: Key, ofs: nat): Byte
    requires k in v.spt ==> Unloaded(v, v.spt[k])
  {
    if k in v.spt && ofs < v.spt[k].readBytes then v.files[v.spt[k].file.value][v.spt[k].filepos + ofs] else 0
  }

  /** From there on every read in every run returns the byte last written, or the
      one from the executable, or zero. */
  lemma ReadsSeeExecutable(vs: seq<Vm>, steps: seq<Step>, i: nat)
    requires Run(vs, steps) && NothingLoaded(vs[0]) && i < |steps| && steps[i].UserRead?
    ensures var k, ofs := KeyOf(steps[i].pid, steps[i].addr), steps[i].addr % PGSIZE;
      steps[i].value == LastWritten(steps[..i], k, ofs, InitialByte(vs[0], k, ofs))
  {
    hide Inv, Next, NothingLoaded, ByteAt, Durable;
    InitialByteIs(vs[0], KeyOf(steps[i].pid, steps[i].addr), steps[i].addr % PGSIZE);
    ReadsSeeLastWrite(vs, steps, i);
  }

  lemma InitialByteIs(v: Vm, k: Key, ofs: nat)
    requires NothingLoaded(v) && ofs < PGSIZE
    ensures Inv(v) && Durable(v, k, ofs) && (k in v.spt ==> Unloaded(v, v.spt[k])) && ByteAt(v, k, ofs) == InitialByte(v, k, ofs)
  {
    NothingLoadedInv(v);
    if k in v.spt {
      var pg := v.spt[k];
      assert KeyOk(v, k);
      FilePageByte(v.files[pg.file.value], pg.filepos, pg.readBytes, ofs);
      hide FilePage;
    }
  }

  /** Where a page can be: exactly one of three places, and no two pages share a
      frame or a slot, at every point of every run. */
  lemma PlacesAreExclusive(vs: seq<Vm>, steps: seq<Step>, k: Key)
    requires Run(vs, steps) && k in vs[|steps|].spt
    ensures var v := vs[|steps|];
      && !(Resident(v, k) && v.spt[k].swapOuted)
      && (v.spt[k].swapOuted ==> v.spt[k].swapIndex < |v.swapUsed| && v.swapUsed[v.spt[k].swapIndex])
      && (Resident(v, k) <==> k in v.frameTable)
      && (forall j :: Resident(v, j) && j != k && Resident(v, k) ==> v.ptes[j].frame != v.ptes[k].frame)
      && forall j :: j in v.spt && j != k && v.spt[j].swapOuted && v.spt[k].swapOuted
           ==> v.spt[j].swapIndex != v.spt[k].swapIndex
  {
    RunInv(vs, steps);
    assert KeyOk(vs[|steps|], k);
  }

  /** Such a state satisfies the invariant. */
  lemma NothingLoadedInv(v: Vm)
    requires NothingLoaded(v)
    ensures Inv(v)
  {
    assert forall k :: k in v.spt ==> KeyOk(v, k);
  }

  /** A private page that stands for a piece of a file. */
  predicate Unloaded(v: Vm, pg: Page)
  {
    && !pg.mmaped && !pg.swapOuted && pg.readBytes <= PGSIZE
    && pg.file.Some? && pg.file.value in v.files && pg.filepos + pg.readBytes <= |v.files[pg.file.value]|
  }

  lemma {:induction false} RunInv(vs: seq<Vm>, steps: seq<Step>)
    requires Run(vs, steps)
    ensures Inv(vs[|steps|])
  {
    if steps != [] {
      var n := |steps| - 1;
      StepInv(vs[n], steps[n], vs[n + 1]);
    }
  }

  lemma StepInv(v: Vm, s: Step, w: Vm)
    requires Next(v, s, w)
    ensures Inv(w)
  {
    var j, o := KeyOf(s.pid, s.addr), s.addr % PGSIZE;
    match s
    case UserRead(_, _, _) => TouchKeeps(v, j);
    case UserWrite(_, _, b) => StoreKeeps(v, j, o, b);
    case Fault(pid, addr, esp) => FaultIsFaithful(v, pid, addr, esp);
  }

  // ----- the stack bit -----

  /** The stack pointers are the same, and no entry has got a stack bit. */
  ghost predicate NoNewMarks(v: Vm, w: Vm)
  {
    w.esp == v.esp && forall k :: k in w.ptes && w.ptes[k].stack ==> k in v.ptes && v.ptes[k].stack
  }

  lemma EspMarks(v: Vm, pid: nat, newEsp: nat, other: nat)
    requires pid in v.esp && OnlyStackMarked(v, other)
    ensures OnlyStackMarked(UpdateEsp(v, pid, newEsp), other)
  {
  }

  lemma ScanMarks(v: Vm, i: nat)
    requires i < |v.frameTable| && forall k :: k in v.frameTable ==> k in v.ptes
    ensures NoNewMarks(v, v.(ptes := Scanned(v, i).ptes))
  {
    hide FirstClear;
  }

  lemma SwapOutMarks(v: Vm, k: Key, slot: nat, table: seq<Key>)
    requires Shape(v) && k in v.spt && KeyOk(v, k) && Resident(v, k) && slot < |v.swapUsed|
    ensures NoNewMarks(v, SwappedOut(v, k, slot).(frameTable := table))
  {
    hide KeyOk, Shape, WriteSlot, FileWrite, Filled;
  }

  lemma EvictMarks(v: Vm)
    requires Inv(v) && (forall k :: k in v.frameTable ==> k in v.ptes) && CanEvict(v)
    ensures NoNewMarks(v, Evicted(v))
  {
    hide Inv, Faithful, FrameTableOk, SwappedOut, KeyOk, Shape, VictimIndex, Scan, Passed, CanEvict, Resident;
    VictimAndSlot(v);
    var i := VictimIndex(v.ptes, v.frameTable).value;
    ScanKeeps(v, i);
    var s := v.(ptes := Scanned(v, i).ptes);
    InvKey(s, v.frameTable[i]);
    ScanMarks(v, i);
    SwapOutMarks(s, v.frameTable[i], Scan(v.swapUsed, 0, 1, false).value, Scanned(v, i).frameTable);
  }

  lemma FrameMarks(v: Vm)
    requires Inv(v) && CanGetFrame(v)
    ensures NoNewMarks(v, WithFrame(v).0)
  {
    hide Inv, Evicted, Filled, Faithful, CanEvict, Resident, Scan;
    TableInPtes(v);
    FrameCounts(v);
    if FreeFrame(v).None? {
      EvictMarks(v);
      EvictionKeeps(v);
      FaithfulBoth(v, Evicted(v));
      FrameCounts(Evicted(v));
    }
  }

  /** A page that is mapped has no stack bit, not even the stack's own. */
  lemma ResolveMarks(w: Vm, f: nat, pid: nat, addr: nat, notPresent: bool)
    requires Inv(w) && Unmapped(w, f) && pid in w.esp && (notPresent ==> !Resident(w, KeyOf(pid, addr)))
    ensures NoNewMarks(w, Resolve(w, f, pid, addr, notPresent).vm)
  {
    hide Filled, ReadSlot, FilePage, StackAccess, EmptyTable;
  }

  lemma FaultMarks(v: Vm, pid: nat, addr: nat, esp: nat, other: nat)
    requires Inv(v) && CanFault(v, pid, esp) && OnlyStackMarked(v, other)
    ensures OnlyStackMarked(PageFault(v, pid, addr, esp).vm, other)
  {
    hide Inv, Faithful, WithFrame, CanGetFrame, Resolve, Unmapped, Filled;
    EspKeeps(v, pid, esp);
    var u := UpdateEsp(v, pid, esp);
    FaithfulBoth(v, u);
    WithFrameKeeps(u);
    var (w, f) := WithFrame(u);
    FaithfulBoth(u, w);
    EspResident(v, pid, esp);
    EspMarks(v, pid, esp, other);
    FrameMarks(u);
    ResolveMarks(w, f, pid, addr, !Resident(v, KeyOf(pid, addr)));
  }

  lemma StepMarks(v: Vm, s: Step, w: Vm, pid: nat)
    requires Next(v, s, w) && OnlyStackMarked(v, pid)
    ensures OnlyStackMarked(w, pid)
  {
    hide Inv, PageFault, CanFault;
    if s.Fault? {
      FaultMarks(v, s.pid, s.addr, s.esp, pid);
    } else {
      assert NoNewMarks(v, w);
    }
  }

  /** At every point of every run only the page of a process's stack pointer has
      the stack bit, so the frames that are never evicted are at most one to a
      process. */
  lemma {:induction false} StackBitIsUnique(vs: seq<Vm>, steps: seq<Step>, pid: nat)
    requires Run(vs, steps) && OnlyStackMarked(vs[0], pid)
    ensures OnlyStackMarked(vs[|steps|], pid)
  {
    if steps != [] {
      var n := |steps| - 1;
      RunPrefix(vs, steps, n);
      StackBitIsUnique(vs[..n + 1], steps[..n], pid);
      StepMarks(vs[n], steps[n], vs[n + 1], pid);
    }
  }
}
