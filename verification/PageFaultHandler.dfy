/**
 page_fault as the kernel runs it (src/userprog/exception.c, src/vm/swap.c,
 src/vm/page.c): loops and field updates, proved against the step functions.
 */
module PageFaultHandler {
  import opened Bitmaps
  import opened Storage
  import opened Sequences
  import opened Paging
  import opened PagingSteps
  import PageFaults

  class VirtualMemory {
    var ptes: map<Key, Pte>
    var spt: map<Key, Page>
    var frameTable: seq<Key>
    var used: seq<bool>
    var mem: seq<PageData>
    var swapUsed: seq<bool>
    var swapDisk: seq<seq<Byte>>
    var files: map<FileId, seq<Byte>>
    var esp: map<nat, nat>

    ghost function View(): Vm
      reads this
    {
      Vm(ptes, spt, frameTable, used, mem, swapUsed, swapDisk, files, esp)
    }

    method SetStackBit(k: Key, on: bool)
      modifies `ptes
      ensures ptes == SetStack(old(ptes), k, on)
    {
      if k in ptes {
        ptes := ptes[k := ptes[k].(stack := on)];
      }
    }

    /** set_new_dirty_page: the stack bit moves to the page of the new stack
        pointer, and no page changes its bytes. */
    method SetNewDirtyPage(pid: nat, newEsp: nat)
      requires Inv(View()) && pid in esp
      modifies this
      ensures View() == UpdateEsp(old(View()), pid, newEsp)
      ensures Faithful(old(View()), View()) && StackMoved(old(View()), View(), pid, newEsp)
    {
      hide Inv, Faithful, UpdateEsp, StackMoved;
      EspKeeps(View(), pid, newEsp);
      EspMoves(View(), pid, newEsp);
      MoveStackBit(pid, newEsp);
    }

    method MoveStackBit(pid: nat, newEsp: nat)
      requires pid in esp
      modifies this
      ensures View() == UpdateEsp(old(View()), pid, newEsp)
    {
      if newEsp < PHYS_BASE && esp[pid] != newEsp {
        SetStackBit(KeyOf(pid, esp[pid]), false);
        esp := esp[pid := newEsp];
        SetStackBit(KeyOf(pid, newEsp), true);
      }
    }

    /** palloc_get_page (PAL_USER | PAL_ZERO). */
    method GetPage() returns (r: Option<nat>)
      requires |used| == |mem|
      modifies this
      ensures r == FreeFrame(old(View()))
      ensures View() == if r.Some? then Allocated(old(View()), r.value) else old(View())
    {
      r := Scan(used, 0, 1, false);
      if r.Some? {
        used, mem := used[r.value := true], mem[r.value := Filled(0)];
      }
    }

    /** frame_table_find_victim: rotates the table, clearing accessed bits, until
        a frame with neither bit turns up. */
    method FindVictim() returns (victim: Key, ghost i: nat)
      requires Distinct(frameTable) && forall k :: k in frameTable ==> k in ptes
      requires VictimIndex(ptes, frameTable).Some?
      modifies `ptes, `frameTable
      ensures Some(i) == VictimIndex(old(ptes), old(frameTable))
      ensures i < |old(frameTable)| && victim == old(frameTable)[i]
      ensures ptes == Passed(old(ptes), old(frameTable), i)
      ensures frameTable == old(frameTable)[i + 1..] + old(frameTable)[..i]
    {
      hide Scanning, VictimIndex, Passed;
      ghost var P, T := ptes, frameTable;
      ghost var r, second := 0, false;
      ScanStarts(P, T);
      var t := frameTable[0];
      frameTable := frameTable[1..];
      while ptes[t].accessed || ptes[t].stack
        invariant r < |T| && t == T[r] && t in ptes && frameTable == T[r + 1..] + T[..r]
        invariant Scanning(P, T, ptes, r, second)
        decreases !second, |T| - r
      {
        ScanAdvances(P, T, ptes, r, second);
        Rotated(T, r);
        ptes := ptes[t := ptes[t].(accessed := false)];
        frameTable := frameTable + [t];
        t := frameTable[0];
        frameTable := frameTable[1..];
        second := second || r + 1 == |T|;
        r := if r + 1 == |T| then 0 else r + 1;
      }
      victim, i := t, r;
      ScanStops(P, T, ptes, r, second);
    }

    /** The eight disk_write calls of a swap-out. */
    method WriteSectors(slot: nat, data: PageData)
      requires |data| == PGSIZE && 8 * slot + 8 <= |swapDisk|
      modifies `swapDisk
      ensures swapDisk == WriteSlot(old(swapDisk), slot, data)
    {
      ghost var d := swapDisk;
      for count := 0 to 8
        invariant |swapDisk| == |d|
        invariant forall s :: 0 <= s < |d| ==>
          swapDisk[s] == if 8 * slot <= s < 8 * slot + count then WriteSlot(d, slot, data)[s] else d[s]
      {
        swapDisk := swapDisk[8 * slot + count := data[SECTOR_SIZE * count..SECTOR_SIZE * count + SECTOR_SIZE]];
      }
      assert swapDisk == WriteSlot(d, slot, data);
    }

    /** The eight disk_read calls of a swap-in. */
    method ReadSectors(slot: nat) returns (data: PageData)
      requires 8 * slot + 8 <= |swapDisk| && forall s :: 0 <= s < |swapDisk| ==> |swapDisk[s]| == SECTOR_SIZE
      ensures data == ReadSlot(swapDisk, slot)
    {
      data := [];
      for count := 0 to 8
        invariant |data| == SECTOR_SIZE * count
        invariant forall i :: 0 <= i < |data| ==> data[i] == ReadSlot(swapDisk, slot)[i]
      {
        data := data + swapDisk[8 * slot + count];
      }
    }

    /** What page_fault does with the victim `k`: unmaps it, writes it to the slot
        or, if it is mapped and dirty, to its file, and frees its frame. */
    method MoveOut(k: Key, slot: nat)
      requires Shape(View()) && k in spt && KeyOk(View(), k) && Resident(View(), k) && slot < |swapUsed|
      requires swapUsed[slot]
      modifies this
      ensures View() == SwappedOut(old(View()), k, slot)
    {
      var page, frame := spt[k], ptes[k].frame;
      KeyBounds(View(), k, slot);
      hide KeyOk, Shape, WriteSlot, FileWrite, Filled;
      // pagedir_get_page sets the accessed bit, pagedir_clear_page clears P
      var gone := ptes[k].(accessed := true, present := false);
      assert swapUsed[slot := true] == swapUsed;
      if !page.mmaped {
        ptes, spt := ptes[k := gone], spt[k := page.(swapOuted := true, swapIndex := slot)];
        WriteSectors(slot, mem[frame]);
      } else if gone.dirty {
        ptes := ptes[k := gone.(dirty := false)];
        var f := page.file.value;
        files := files[f := FileWrite(files[f], page.filepos, mem[frame][..page.readBytes])];
      } else {
        ptes := ptes[k := gone];
      }
      used, mem := used[frame := false], mem[frame := Filled(0xcc)];
    }

    /** Frees a frame: takes a slot, finds a victim and moves it out. */
    method Evict()
      requires Inv(View()) && (forall k :: k in frameTable ==> k in ptes) && CanEvict(View())
      modifies this
      ensures View() == PageFaults.Evicted(old(View()))
    {
      hide KeyOk, SwappedOut, DistinctFrames, DistinctSlots, NoOtherWriter, FirstClear, Scan;
      ghost var v := View();
      PageFaults.VictimAndSlot(v);
      var slot := Scan(swapUsed, 0, 1, false).value;
      swapUsed := swapUsed[slot := true];
      var k, i := FindVictim();
      ghost var s := v.(ptes := ptes);
      AfterScan(v, s, i);
      hide Inv, FrameTableOk, Passed, VictimIndex, FirstClear, Scan, Group, CanEvict;
      hide KeyOk, Shape, SwappedOut;
      SlotTaken(s, k, slot, frameTable);
      assert View() == s.(swapUsed := s.swapUsed[slot := true], frameTable := frameTable);
      MoveOut(k, slot);
    }

    /** A zeroed frame, evicting if the pool is exhausted. */
    method ObtainFrame() returns (f: nat)
      requires Inv(View()) && PageFaults.CanGetFrame(View())
      modifies this
      ensures (View(), f) == PageFaults.WithFrame(old(View()))
    {
      PageFaults.TableInPtes(View());
      var r := GetPage();
      if r.None? {
        PageFaults.EvictionKeeps(View());
        Evict();
        hide Inv, CanEvict, PageFaults.Evicted;
        r := GetPage();
      }
      f := r.value;
    }

    /** Growth, lazy load, swap-in or death, with the zeroed frame `f` in hand: no
        page changes its bytes, at most a zero stack page is new, and the page
        asked for is there unless the process is killed. */
    method Resolve(f: nat, pid: nat, addr: nat, notPresent: bool) returns (killed: bool)
      requires Inv(View()) && Unmapped(View(), f) && mem[f] == Filled(0) && pid in esp
      requires notPresent ==> !Resident(View(), KeyOf(pid, addr))
      modifies this
      ensures View() == PageFaults.Resolve(old(View()), f, pid, addr, notPresent).vm
      ensures killed == PageFaults.Resolve(old(View()), f, pid, addr, notPresent).Killed?
      ensures PageFaults.Resolved(old(View()), View(), KeyOf(pid, addr), killed)
    {
      PageFaults.ResolveIsFaithful(View(), f, pid, addr, notPresent);
      killed := Install(f, pid, addr, notPresent);
    }

    method Install(f: nat, pid: nat, addr: nat, notPresent: bool) returns (killed: bool)
      requires Inv(View()) && Unmapped(View(), f) && pid in esp
      requires notPresent ==> !Resident(View(), KeyOf(pid, addr))
      modifies this
      ensures View() == PageFaults.Resolve(old(View()), f, pid, addr, notPresent).vm
      ensures killed == PageFaults.Resolve(old(View()), f, pid, addr, notPresent).Killed?
    {
      var k := KeyOf(pid, addr);
      if k !in spt {
        if !PageFaults.StackAccess(esp[pid], addr) {
          return true;
        }
        spt := spt[k := Page(None, 0, 0, true, false, false, 0)];
        frameTable := frameTable + [k];
        ptes := Mapped(ptes, k, f, true);
        return false;
      }
      if !notPresent {
        return true;
      }
      assert KeyOk(View(), k);
      var page := spt[k];
      if !page.swapOuted {
        mem := mem[f := FilePage(files[page.file.value], page.filepos, page.readBytes)];
        ptes := Mapped(ptes, k, f, page.writable);
      } else {
        var data := ReadSectors(page.swapIndex);
        mem := mem[f := data];
        ptes := Mapped(ptes, k, f, page.writable);
        spt := spt[k := page.(swapOuted := false, swapIndex := 0)];
        swapUsed := swapUsed[page.swapIndex := false];
      }
      frameTable := frameTable + [k];
      return false;
    }

    /** page_fault: every page keeps its bytes, the page asked for is resident
        unless the process is killed, and it is killed exactly on a rights
        violation or on an address that is neither mapped nor the stack's. */
    method PageFault(pid: nat, addr: nat, newEsp: nat) returns (killed: bool)
      requires Inv(View()) && PageFaults.CanFault(View(), pid, newEsp)
      modifies this
      ensures View() == PageFaults.PageFault(old(View()), pid, addr, newEsp).vm
      ensures killed == PageFaults.PageFault(old(View()), pid, addr, newEsp).Killed?
      ensures PageFaults.Faulted(old(View()), View(), pid, addr, killed) && Inv(View())
    {
      ghost var v := View();
      hide PageFaults.Faulted, PageFaults.PageFault, Inv;
      PageFaults.FaultDone(v, pid, addr, newEsp);
      killed := Fault(pid, addr, newEsp);
    }

    method Fault(pid: nat, addr: nat, newEsp: nat) returns (killed: bool)
      requires Inv(View()) && PageFaults.CanFault(View(), pid, newEsp)
      modifies this
      ensures View() == PageFaults.PageFault(old(View()), pid, addr, newEsp).vm
      ensures killed == PageFaults.PageFault(old(View()), pid, addr, newEsp).Killed?
    {
      ghost var v := View();
      var k := KeyOf(pid, addr);
      var notPresent := !(k in ptes && ptes[k].present);
      SetNewDirtyPage(pid, newEsp);
      assert Inv(View());
      ghost var u := View();
      hide Inv, Faithful, PageFaults.WithFrame, PageFaults.CanGetFrame, PageFaults.Resolve, PageFaults.Resolved;
      PageFaults.WithFrameKeeps(u);
      var f := ObtainFrame();
      assert Inv(View()) by { FaithfulBoth(u, View()); }
      killed := Resolve(f, pid, addr, notPresent);
    }
  }

  /** A user address becomes the saved stack pointer, its page gets the stack bit
      if it has an entry, no other page of the process has one if only the old
      stack page had, and no other process is touched. */
  ghost predicate StackMoved(v: Vm, w: Vm, pid: nat, newEsp: nat)
  {
    && pid in v.esp && w.esp == v.esp[pid := if newEsp < PHYS_BASE then newEsp else v.esp[pid]]
    && (w.esp != v.esp && KeyOf(pid, newEsp) in w.ptes ==> w.ptes[KeyOf(pid, newEsp)].stack)
    && (OnlyStackMarked(v, pid) ==> OnlyStackMarked(w, pid))
    && (forall k :: k in v.ptes && k.pid != pid ==> k in w.ptes && w.ptes[k] == v.ptes[k])
  }

  lemma EspMoves(v: Vm, pid: nat, newEsp: nat)
    requires pid in v.esp
    ensures StackMoved(v, UpdateEsp(v, pid, newEsp), pid, newEsp)
  {
    var w := UpdateEsp(v, pid, newEsp);
    assert w.esp == v.esp[pid := if newEsp < PHYS_BASE then newEsp else v.esp[pid]];
  }

  lemma KeyBounds(v: Vm, k: Key, slot: nat)
    requires Shape(v) && k in v.spt && KeyOk(v, k) && Resident(v, k) && slot < |v.swapUsed|
    ensures v.ptes[k].frame < |v.mem| == |v.used| && |v.mem[v.ptes[k].frame]| == PGSIZE && 8 * slot + 8 <= |v.swapDisk|
    ensures var pg := v.spt[k];
      && pg.readBytes <= PGSIZE
      && (pg.mmaped ==> pg.file.Some? && pg.file.value in v.files && pg.filepos + pg.readBytes <= |v.files[pg.file.value]|)
  {
  }

  lemma AfterScan(v: Vm, s: Vm, i: nat)
    requires Inv(v) && i < |v.frameTable| && (forall k :: k in v.frameTable ==> k in v.ptes)
    requires s == v.(ptes := Passed(v.ptes, v.frameTable, i))
    ensures Shape(s) && v.frameTable[i] in s.spt && Resident(s, v.frameTable[i]) && KeyOk(s, v.frameTable[i])
  {
    PageFaults.ScanKeeps(v, i);
    PageFaults.InvKey(s, v.frameTable[i]);
  }

  /** Marking the slot before the scan or with the move is the same. */
  lemma SlotTaken(s: Vm, k: Key, slot: nat, table: seq<Key>)
    requires Shape(s) && k in s.spt && KeyOk(s, k) && Resident(s, k) && slot < |s.swapUsed|
    ensures var u := s.(swapUsed := s.swapUsed[slot := true], frameTable := table);
      && Shape(u) && KeyOk(u, k)
      && SwappedOut(u, k, slot) == SwappedOut(s, k, slot).(frameTable := table)
  {
  }

  /** The scan looks at `T[r]`, in its first or second round; every frame it has
      passed had one of the bits set. */
  ghost predicate Scanning(P: map<Key, Pte>, T: seq<Key>, ptes: map<Key, Pte>, r: nat, second: bool)
  {
    && r < |T| && (forall k :: k in T ==> k in P)
    && ptes == ClearAccessed(P, if second then T else T[..r])
    && (if second then FirstClear(P, T, true) == |T| && r <= FirstClear(P, T, false) else r <= FirstClear(P, T, true))
  }

  lemma ScanStarts(P: map<Key, Pte>, T: seq<Key>)
    requires (forall k :: k in T ==> k in P) && VictimIndex(P, T).Some?
    ensures T != [] && Scanning(P, T, P, 0, false) && T[0] in P
  {
    assert T[0] in T;
    assert P == ClearAccessed(P, T[..0]);
  }

  lemma ScanAdvances(P: map<Key, Pte>, T: seq<Key>, ptes: map<Key, Pte>, r: nat, second: bool)
    requires Distinct(T) && Scanning(P, T, ptes, r, second) && VictimIndex(P, T).Some?
    requires T[r] in ptes && (ptes[T[r]].accessed || ptes[T[r]].stack)
    ensures var t := T[r];
      var r' := if r + 1 == |T| then 0 else r + 1;
      && Scanning(P, T, ptes[t := ptes[t].(accessed := false)], r', second || r + 1 == |T|)
      && T[r'] in ptes
      && (second ==> r + 1 < |T|)
  {
    hide FirstClear, VictimIndex, ClearAccessed, Distinct, SoftChange;
    ScanGoesOn(P, T, ptes, r, second);
    ClearOneMore(P, T, r, second);
    assert T[..|T|] == T;
    assert T[if r + 1 == |T| then 0 else r + 1] in T;
  }

  /** A frame with a bit set is not where the scan stops. */
  lemma ScanGoesOn(P: map<Key, Pte>, T: seq<Key>, ptes: map<Key, Pte>, r: nat, second: bool)
    requires Distinct(T) && Scanning(P, T, ptes, r, second) && VictimIndex(P, T).Some?
    requires T[r] in ptes && (ptes[T[r]].accessed || ptes[T[r]].stack)
    ensures if second then r < FirstClear(P, T, false) < |T| else r < FirstClear(P, T, true)
    ensures ptes.Keys == P.Keys
  {
    hide ClearAccessed, FirstClear;
    var t := T[r];
    assert t in T;
    if second {
      assert ptes[t] == P[t].(accessed := false);
    } else {
      NotBefore(T, r);
      assert ptes[t] == P[t];
    }
  }

  lemma NotBefore(T: seq<Key>, r: nat)
    requires Distinct(T) && r < |T|
    ensures T[r] !in T[..r]
  {
  }

  /** Push back, then pop front. */
  lemma Rotated(T: seq<Key>, r: nat)
    requires r < |T|
    ensures var q := T[r + 1..] + T[..r] + [T[r]];
      var r' := if r + 1 == |T| then 0 else r + 1;
      q[0] == T[r'] && q[1..] == T[r' + 1..] + T[..r']
  {
    assert T[..r] + [T[r]] == T[..r + 1];
    var q := T[r + 1..] + T[..r + 1];
    if r + 1 == |T| {
      assert q == T;
    } else {
      assert q == [T[r + 1]] + T[r + 2..] + T[..r + 1];
    }
    assert T[r + 1..] + T[..r] + [T[r]] == T[r + 1..] + (T[..r] + [T[r]]);
  }

  lemma ScanStops(P: map<Key, Pte>, T: seq<Key>, ptes: map<Key, Pte>, r: nat, second: bool)
    requires Distinct(T) && Scanning(P, T, ptes, r, second)
    requires T[r] in ptes && !ptes[T[r]].accessed && !ptes[T[r]].stack
    ensures (forall k :: k in T ==> k in P) && VictimIndex(P, T) == Some(r) && Passed(P, T, r) == ptes
  {
    hide ClearAccessed, FirstClear;
    assert T[r] in T;
    if second {
      assert ptes[T[r]] == P[T[r]].(accessed := false);
    } else {
      NotBefore(T, r);
      assert ptes[T[r]] == P[T[r]];
    }
  }

  /** Clearing the bit of `T[r]` extends what has been cleared by one. */
  lemma ClearOneMore(P: map<Key, Pte>, T: seq<Key>, r: nat, all: bool)
    requires r < |T| && T[r] in P
    ensures var c := ClearAccessed(P, if all then T else T[..r]);
      c[T[r] := c[T[r]].(accessed := false)] == ClearAccessed(P, if all then T else T[..r + 1])
  {
    var c := ClearAccessed(P, if all then T else T[..r]);
    var d := c[T[r] := c[T[r]].(accessed := false)];
    var e := ClearAccessed(P, if all then T else T[..r + 1]);
    assert T[..r + 1] == T[..r] + [T[r]];
    assert d.Keys == e.Keys;
    forall k | k in P ensures d[k] == e[k] {
      assert k in T[..r + 1] <==> k in T[..r] || k == T[r];
    }
  }
}
