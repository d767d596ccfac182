/**
 The page fault (src/userprog/exception.c) as one step, and what every run of
 user accesses and page faults looks like from inside a process.
 */
module PageFaults {
  import opened Bitmaps
  import opened Sequences
  import opened Paging
  import opened PagingSteps

  // ----- eviction -----

  lemma TableInPtes(v: Vm)
    requires Inv(v)
    ensures forall k :: k in v.frameTable ==> k in v.ptes && k in v.spt && Resident(v, k)
  {
  }

  /** The second-chance scan clears accessed bits and nothing else. */
  lemma ScanKeeps(v: Vm, i: nat)
    requires Inv(v) && i < |v.frameTable|
    ensures (forall k :: k in v.frameTable ==> k in v.ptes)
    ensures Faithful(v, v.(ptes := Scanned(v, i).ptes))
    ensures var s := v.(ptes := Scanned(v, i).ptes);
      Inv(s) && FrameTableOk(s) && Resident(s, v.frameTable[i]) && forall k :: Resident(s, k) ==> Resident(v, k)
  {
    TableInPtes(v);
    var w := v.(ptes := Scanned(v, i).ptes);
    assert forall k :: Resident(w, k) == Resident(v, k);
    BitsOnly(v, w);
  }

  /** The scan finds a victim exactly when some frame lacks the stack bit. */
  lemma VictimExists(ptes: map<Key, Pte>, t: seq<Key>)
    requires forall k :: k in t ==> k in ptes
    ensures VictimIndex(ptes, t).Some? <==> exists k :: k in t && !ptes[k].stack
  {
    hide FirstClear, VictimIndex;
    var r := VictimIndex(ptes, t);
    if r.Some? {
      assert t[r.value] in t;
    } else {
      forall k | k in t ensures ptes[k].stack {
        var j :| 0 <= j < |t| && t[j] == k;
      }
    }
  }

  /** The victim has neither bit when it is taken, was accessed only if every
      frame had a bit set, is the first such frame, and all others stay. */
  lemma VictimIsRight(ptes: map<Key, Pte>, t: seq<Key>)
    requires Distinct(t) && (forall k :: k in t ==> k in ptes) && VictimIndex(ptes, t).Some?
    ensures var i := VictimIndex(ptes, t).value;
      && t[i] in t && !Passed(ptes, t, i)[t[i]].accessed && !Passed(ptes, t, i)[t[i]].stack
      && (ptes[t[i]].accessed ==> forall j :: 0 <= j < |t| ==> ptes[t[j]].accessed || ptes[t[j]].stack)
      && (forall j :: 0 <= j < i ==> ptes[t[j]].stack || (!ptes[t[i]].accessed && ptes[t[j]].accessed))
      && multiset(t[i + 1..] + t[..i]) + multiset{t[i]} == multiset(t)
  {
    hide *;
    RotationKeeps(t, VictimIndex(ptes, t).value);
    VictimBits(ptes, t);
    VictimIsFirst(ptes, t);
  }

  lemma VictimBits(ptes: map<Key, Pte>, t: seq<Key>)
    requires Distinct(t) && (forall k :: k in t ==> k in ptes) && VictimIndex(ptes, t).Some?
    ensures var i := VictimIndex(ptes, t).value;
      t[i] in t && !Passed(ptes, t, i)[t[i]].accessed && !Passed(ptes, t, i)[t[i]].stack
  {
    hide FirstClear, ClearAccessed;
    var i := VictimIndex(ptes, t).value;
    assert t[i] in t;
    if FirstClear(ptes, t, true) < |t| {
      assert t[i] !in t[..i];
    }
  }

  lemma VictimIsFirst(ptes: map<Key, Pte>, t: seq<Key>)
    requires (forall k :: k in t ==> k in ptes) && VictimIndex(ptes, t).Some?
    ensures var i := VictimIndex(ptes, t).value;
      && (ptes[t[i]].accessed ==> forall j :: 0 <= j < |t| ==> ptes[t[j]].accessed || ptes[t[j]].stack)
      && (forall j :: 0 <= j < i ==> ptes[t[j]].stack || (!ptes[t[i]].accessed && ptes[t[j]].accessed))
  {
    hide FirstClear;
  }

  lemma RotationKeeps(t: seq<Key>, i: nat)
    requires i < |t|
    ensures multiset(t[i + 1..] + t[..i]) + multiset{t[i]} == multiset(t)
  {
    assert t == t[..i] + [t[i]] + t[i + 1..];
  }

  ghost predicate CanGetFrame(v: Vm)
    requires Inv(v)
  {
    TableInPtes(v);
    FreeFrame(v).Some? || CanEvict(v)
  }

  /** One eviction: a slot is taken, a victim found and moved out. */
  ghost function Evicted(v: Vm): Vm
    requires Inv(v) && (forall k :: k in v.frameTable ==> k in v.ptes) && CanEvict(v)
  {
    var i := VictimIndex(v.ptes, v.frameTable).value;
    ScanKeeps(v, i);
    var s := v.(ptes := Scanned(v, i).ptes);
    SwappedOut(s, v.frameTable[i], Scan(v.swapUsed, 0, 1, false).value).(frameTable := Scanned(v, i).frameTable)
  }

  lemma EvictionKeeps(v: Vm)
    requires Inv(v) && (forall k :: k in v.frameTable ==> k in v.ptes) && CanEvict(v)
    ensures Faithful(v, Evicted(v)) && FreeFrame(Evicted(v)).Some?
    ensures Evicted(v).spt.Keys == v.spt.Keys && Evicted(v).esp == v.esp
    ensures forall k :: Resident(Evicted(v), k) ==> Resident(v, k)
  {
    hide Inv, Faithful, FrameTableOk, Evicted, Distinct, SwappedOut, KeyOk;
    var s, i, slot := EvictedForm(v);
    RotationWithout(s, i);
    MoveOut(v, s, v.frameTable[i], slot, v.frameTable[i + 1..] + v.frameTable[..i]);
  }

  /** What an eviction moves, and where: the frame that the second-chance scan
      stops at, to the first free slot or to its file, and no other. */
  lemma EvictionMoves(v: Vm) returns (i: nat, slot: nat)
    requires Inv(v) && (forall k :: k in v.frameTable ==> k in v.ptes) && CanEvict(v)
    ensures i < |v.frameTable| && v.frameTable[i] in v.spt && v.frameTable[i] in v.ptes && !v.ptes[v.frameTable[i]].stack
    ensures v.ptes[v.frameTable[i]].accessed ==> forall k :: k in v.frameTable ==> v.ptes[k].accessed || v.ptes[k].stack
    ensures forall j :: 0 <= j < i ==> var p := v.ptes[v.frameTable[j]];
      p.stack || (!v.ptes[v.frameTable[i]].accessed && p.accessed)
    ensures slot < |v.swapUsed| && !v.swapUsed[slot] && forall s :: 0 <= s < slot ==> v.swapUsed[s]
    ensures var k, w := v.frameTable[i], Evicted(v);
      && (forall j :: Resident(w, j) <==> Resident(v, j) && j != k)
      && w.frameTable == v.frameTable[i + 1..] + v.frameTable[..i] && w.swapUsed == v.swapUsed[slot := true]
      && w.spt == (if v.spt[k].mmaped then v.spt else v.spt[k := v.spt[k].(swapOuted := true, swapIndex := slot)])
  {
    hide Inv, FrameTableOk, KeyOk, Shape, FirstClear, Faithful, WriteSlot, FileWrite, Filled, Passed, DistinctFrames;
    VictimAndSlot(v);
    VictimIsFirst(v.ptes, v.frameTable);
    i, slot := VictimIndex(v.ptes, v.frameTable).value, Scan(v.swapUsed, 0, 1, false).value;
    FirstSlot(v.swapUsed, slot);
    TableInPtes(v);
    assert v.frameTable[i] in v.frameTable;
    ScanKeeps(v, i);
  }

  /** Its frame, and no other, is free then, and filled with the pattern of freed memory. */
  lemma EvictionFrees(v: Vm) returns (k: Key)
    requires Inv(v) && (forall k :: k in v.frameTable ==> k in v.ptes) && CanEvict(v)
    ensures Resident(v, k) && !Resident(Evicted(v), k)
    ensures var f, w := v.ptes[k].frame, Evicted(v);
      f < |v.used| == |v.mem| && w.used == v.used[f := false] && w.mem == v.mem[f := Filled(0xcc)]
  {
    hide Inv, FrameTableOk, KeyOk, Shape, VictimIndex, Scan, Faithful, WriteSlot, FileWrite, Filled, CanEvict, FirstClear;
    VictimAndSlot(v);
    var i := VictimIndex(v.ptes, v.frameTable).value;
    k := v.frameTable[i];
    ScanKeeps(v, i);
    var s := v.(ptes := Scanned(v, i).ptes);
    InvKey(s, k);
    FrameOf(s, k);
    SameFrame(v, i, k);
  }

  lemma FrameOf(v: Vm, k: Key)
    requires Shape(v) && k in v.spt && KeyOk(v, k) && Resident(v, k)
    ensures v.ptes[k].frame < |v.used| == |v.mem|
  {
  }

  lemma SameFrame(v: Vm, i: nat, k: Key)
    requires i < |v.frameTable| && (forall k :: k in v.frameTable ==> k in v.ptes) && k == v.frameTable[i]
    ensures k in Scanned(v, i).ptes && k in v.ptes && Scanned(v, i).ptes[k].frame == v.ptes[k].frame
  {
    hide FirstClear;
    assert v.frameTable[i] in v.frameTable;
  }

  lemma FirstSlot(used: seq<bool>, slot: nat)
    requires Scan(used, 0, 1, false) == Some(slot)
    ensures slot < |used| && !used[slot] && forall s :: 0 <= s < slot ==> used[s]
  {
    forall s | 0 <= s < slot ensures used[s] {
      assert !Group(used, s, 1, false);
    }
  }

  /** An eviction taken apart: a scanned state, a victim and a slot. */
  lemma EvictedForm(v: Vm) returns (s: Vm, i: nat, slot: nat)
    requires Inv(v) && (forall k :: k in v.frameTable ==> k in v.ptes) && CanEvict(v)
    ensures Faithful(v, s) && FrameTableOk(s) && s == v.(ptes := s.ptes)
    ensures forall k :: Resident(s, k) ==> Resident(v, k)
    ensures i < |v.frameTable| && slot < |v.swapUsed| && !v.swapUsed[slot]
    ensures Resident(s, v.frameTable[i]) && Shape(s) && v.frameTable[i] in s.spt && KeyOk(s, v.frameTable[i])
    ensures Evicted(v) == SwappedOut(s, v.frameTable[i], slot).(frameTable := v.frameTable[i + 1..] + v.frameTable[..i])
  {
    hide Inv, Faithful, FrameTableOk, SwappedOut, KeyOk, Shape, VictimIndex, FirstClear, Scan, Group, ClearAccessed,
         Passed, CanEvict, Resident;
    VictimAndSlot(v);
    i, slot := VictimIndex(v.ptes, v.frameTable).value, Scan(v.swapUsed, 0, 1, false).value;
    ScanKeeps(v, i);
    s := v.(ptes := Scanned(v, i).ptes);
    FaithfulBoth(v, s);
    InvKey(s, v.frameTable[i]);
  }

  lemma VictimAndSlot(v: Vm)
    requires (forall k :: k in v.frameTable ==> k in v.ptes) && CanEvict(v)
    ensures VictimIndex(v.ptes, v.frameTable).Some? && VictimIndex(v.ptes, v.frameTable).value < |v.frameTable|
    ensures Scan(v.swapUsed, 0, 1, false).Some?
    ensures var slot := Scan(v.swapUsed, 0, 1, false).value; slot < |v.swapUsed| && !v.swapUsed[slot]
  {
  }

  lemma InvKey(v: Vm, k: Key)
    requires Inv(v) && Resident(v, k)
    ensures Shape(v) && k in v.spt && KeyOk(v, k)
  {
  }

  /** The part of an eviction after the scan. */
  lemma MoveOut(v: Vm, s: Vm, k: Key, slot: nat, table: seq<Key>)
    requires Faithful(v, s) && Resident(s, k) && slot < |s.swapUsed| && !s.swapUsed[slot]
    requires s.spt == v.spt && s.esp == v.esp && forall j :: Resident(s, j) ==> Resident(v, j)
    requires Distinct(table) && forall j :: j in table <==> Resident(s, j) && j != k
    ensures k in s.spt && KeyOk(s, k)
    ensures var w := SwappedOut(s, k, slot).(frameTable := table);
      && Faithful(v, w) && FreeFrame(w).Some? && w.spt.Keys == v.spt.Keys && w.esp == v.esp
      && forall j :: Resident(w, j) ==> Resident(v, j)
  {
    assert k in s.spt && KeyOk(s, k);
    var w := SwappedOut(s, k, slot).(frameTable := table);
    SwapOutShape(s, k, slot);
    SwapOutKeeps(s, k, slot, table);
    hide Inv, Faithful, SwappedOut, Distinct, KeyOk;
    FaithfulTransitive(v, s, w);
    assert Group(w.used, s.ptes[k].frame, 1, false);
  }

  lemma RotationWithout(v: Vm, i: nat)
    requires FrameTableOk(v) && i < |v.frameTable|
    ensures var t := v.frameTable[i + 1..] + v.frameTable[..i];
      && Distinct(t)
      && (forall k :: k in t <==> Resident(v, k) && k != v.frameTable[i])
  {
    var u := v.frameTable;
    var t := u[i + 1..] + u[..i];
    forall k ensures k in t <==> Resident(v, k) && k != u[i] {
      if k in u && k != u[i] {
        var j :| 0 <= j < |u| && u[j] == k;
        assert t[if j > i then j - i - 1 else j + |u| - i - 1] == k;
      }
    }
  }

  /** palloc_get_page, evicting if the pool is exhausted. */
  ghost function WithFrame(v: Vm): (r: (Vm, nat))
    requires Inv(v) && CanGetFrame(v)
  {
    TableInPtes(v);
    if FreeFrame(v).Some? then (Allocated(v, FreeFrame(v).value), FreeFrame(v).value)
    else
      EvictionKeeps(v);
      var e := Evicted(v);
      (Allocated(e, FreeFrame(e).value), FreeFrame(e).value)
  }

  lemma FrameCounts(v: Vm)
    requires Inv(v)
    ensures |v.used| == |v.mem|
  {
  }

  lemma AllocatedFacts(v: Vm, f: nat)
    requires f < |v.used| && f < |v.mem|
    ensures var w := Allocated(v, f);
      w.spt == v.spt && w.esp == v.esp && f < |w.mem| && w.mem[f] == Filled(0) && forall k :: Resident(w, k) == Resident(v, k)
  {
  }

  lemma WithFrameKeeps(v: Vm)
    requires Inv(v) && CanGetFrame(v)
    ensures var (w, f) := WithFrame(v);
      && Faithful(v, w) && Unmapped(w, f) && w.mem[f] == Filled(0)
      && w.spt.Keys == v.spt.Keys && w.esp == v.esp
      && forall k :: Resident(w, k) ==> Resident(v, k)
  {
    hide Inv, Faithful, Evicted, CanEvict, Unmapped, Allocated, Resident;
    TableInPtes(v);
    FrameCounts(v);
    if FreeFrame(v).Some? {
      AllocationKeeps(v, FreeFrame(v).value);
      AllocatedFacts(v, FreeFrame(v).value);
    } else {
      EvictionKeeps(v);
      var e := Evicted(v);
      FaithfulBoth(v, e);
      FrameCounts(e);
      AllocatedFacts(e, FreeFrame(e).value);
      AllocationKeeps(e, FreeFrame(e).value);
      FaithfulTransitive(v, e, Allocated(e, FreeFrame(e).value));
    }
  }

  // ----- the fault -----

  datatype Outcome = Handled(vm: Vm) | Killed(vm: Vm)

  /** The stack-growth heuristic. */
  predicate StackAccess(esp: nat, addr: nat)
  {
    && STACK_BASE <= addr < PHYS_BASE
    && (esp <= addr || addr == esp - 4 || addr == esp - 32)
  }

  ghost predicate CanFault(v: Vm, pid: nat, esp: nat)
    requires Inv(v)
  {
    pid in v.esp && (EspKeeps(v, pid, esp); CanGetFrame(UpdateEsp(v, pid, esp)))
  }

  /** What page_fault does once it has a zeroed frame `f`. */
  ghost function Resolve(w: Vm, f: nat, pid: nat, addr: nat, notPresent: bool): (r: Outcome)
    requires Inv(w) && Unmapped(w, f) && pid in w.esp
    requires notPresent ==> !Resident(w, KeyOf(pid, addr))
    ensures r.vm.files == w.files
  {
    var k := KeyOf(pid, addr);
    if k !in w.spt then
      if StackAccess(w.esp[pid], addr) then Handled(Grown(w, k, f)) else Killed(w)
    else if notPresent then
      if w.spt[k].swapOuted then Handled(SwappedIn(w, k, f)) else Handled(Loaded(w, k, f))
    else Killed(w)
  }

  /** page_fault at `addr` in process `pid` with stack pointer `esp`. */
  ghost function PageFault(v: Vm, pid: nat, addr: nat, esp: nat): (r: Outcome)
    requires Inv(v) && CanFault(v, pid, esp)
  {
    EspKeeps(v, pid, esp);
    var u := UpdateEsp(v, pid, esp);
    WithFrameKeeps(u);
    var (w, f) := WithFrame(u);
    Resolve(w, f, pid, addr, !Resident(v, KeyOf(pid, addr)))
  }

  /** What a page fault does with its frame changes no byte of any page; it makes
      the page resident unless it kills, and adds at most that page, all zero. */
  ghost predicate Resolved(v: Vm, w: Vm, k: Key, killed: bool)
  {
    && Faithful(v, w) && (!killed ==> Resident(w, k))
    && (forall j :: j in w.spt && j !in v.spt ==> j == k && Content(w, j) == Filled(0) && !w.spt[j].mmaped)
  }

  lemma ResolveIsFaithful(w: Vm, f: nat, pid: nat, addr: nat, notPresent: bool)
    requires Inv(w) && Unmapped(w, f) && w.mem[f] == Filled(0) && pid in w.esp
    requires notPresent ==> !Resident(w, KeyOf(pid, addr))
    ensures var r := Resolve(w, f, pid, addr, notPresent); Resolved(w, r.vm, KeyOf(pid, addr), r.Killed?)
  {
    var k := KeyOf(pid, addr);
    if k !in w.spt {
      assert !Resident(w, k);
      if StackAccess(w.esp[pid], addr) {
        GrowthKeeps(w, k, f);
      }
    } else if notPresent {
      if w.spt[k].swapOuted {
        SwapInKeeps(w, k, f);
      } else {
        LoadKeeps(w, k, f);
      }
    }
  }

  /** A page fault keeps the invariant and every byte of every page, and kills
      exactly on a rights violation or on an address that is neither mapped nor
      the stack's. */
  lemma FaultIsFaithful(v: Vm, pid: nat, addr: nat, esp: nat)
    requires Inv(v) && CanFault(v, pid, esp)
    ensures var r := PageFault(v, pid, addr, esp);
      var k := KeyOf(pid, addr);
      && Resolved(v, r.vm, k, r.Killed?)
      && (r.Handled? <==> !Resident(v, k) && (k in v.spt || StackAccess(UpdateEsp(v, pid, esp).esp[pid], addr)))
  {
    hide Inv, Faithful, Resolved, WithFrame, CanGetFrame, StackAccess, Unmapped, Resident, Filled;
    EspKeeps(v, pid, esp);
    var u := UpdateEsp(v, pid, esp);
    FaithfulBoth(v, u);
    WithFrameKeeps(u);
    var (w, f) := WithFrame(u);
    FaithfulBoth(u, w);
    FaithfulTransitive(v, u, w);
    var k := KeyOf(pid, addr);
    EspResident(v, pid, esp);
    if Resident(v, k) {
      ResidentKnown(v, k);
    }
    ResolveIsFaithful(w, f, pid, addr, !Resident(v, k));
    var r := Resolve(w, f, pid, addr, !Resident(v, k));
    ResolvedAfter(v, w, r.vm, k, r.Killed?);
  }

  lemma EspResident(v: Vm, pid: nat, esp: nat)
    requires pid in v.esp
    ensures var u := UpdateEsp(v, pid, esp);
      u.spt == v.spt && pid in u.esp && forall k :: Resident(u, k) == Resident(v, k)
  {
  }

  lemma ResidentKnown(v: Vm, k: Key)
    requires Inv(v) && Resident(v, k)
    ensures k in v.spt
  {
  }

  lemma ResolvedAfter(v: Vm, w: Vm, x: Vm, k: Key, killed: bool)
    requires Faithful(v, w) && v.spt.Keys == w.spt.Keys && Resolved(w, x, k, killed)
    ensures Resolved(v, x, k, killed)
  {
    hide Inv, Faithful, Filled, Content, Resident;
    FaithfulTransitive(v, w, x);
  }

  /** What the fault installs: one writable or read-only entry for the page, last in
      the frame table, in the frame it got; the slot it came from is free again. */
  lemma ResolveInstalls(w: Vm, f: nat, pid: nat, addr: nat, notPresent: bool)
    requires Inv(w) && Unmapped(w, f) && pid in w.esp
    requires notPresent ==> !Resident(w, KeyOf(pid, addr))
    ensures var r, k := Resolve(w, f, pid, addr, notPresent), KeyOf(pid, addr);
      && (r.Killed? ==> r.vm == w)
      && (r.Handled? ==>
        && k in r.vm.spt && (k in w.spt ==> r.vm.spt[k].writable == w.spt[k].writable)
        && (k !in w.spt ==> r.vm.spt[k].writable)
        && r.vm.ptes[k] == Pte(true, f, r.vm.spt[k].writable, false, false, false)
        && (forall j :: Resident(r.vm, j) <==> Resident(w, j) || j == k)
        && r.vm.frameTable == w.frameTable + [k]
        && (forall s :: 0 <= s < |w.swapUsed| ==>
            r.vm.swapUsed[s] == (w.swapUsed[s] && !(k in w.spt && w.spt[k].swapOuted && w.spt[k].swapIndex == s))))
  {
    hide Filled, ReadSlot, FilePage, StackAccess, EmptyTable, DistinctFrames, DistinctSlots, NoOtherWriter;
  }

  /** When page_fault kills, in the addresses of the process. */
  lemma KilledIff(v: Vm, pid: nat, addr: nat, esp: nat)
    requires Inv(v) && CanFault(v, pid, esp)
    ensures var k, sp := Key(pid, addr / 4096), if esp < 0xc000_0000 then esp else v.esp[pid];
      PageFault(v, pid, addr, esp).Killed? <==>
      Resident(v, k) ||
      (k !in v.spt && !(0xb800_0000 <= addr < 0xc000_0000 && (sp <= addr || addr + 4 == sp || addr + 32 == sp)))
  {
    hide Inv, PageFault, CanFault, Resident;
    FaultIsFaithful(v, pid, addr, esp);
  }

  /** What page_fault means to the process. */
  ghost predicate Faulted(v: Vm, w: Vm, pid: nat, addr: nat, killed: bool)
  {
    && Resolved(v, w, KeyOf(pid, addr), killed) && pid in w.esp
    && (killed <==> Resident(v, KeyOf(pid, addr)) || (KeyOf(pid, addr) !in v.spt && !StackAccess(w.esp[pid], addr)))
  }

  lemma FaultDone(v: Vm, pid: nat, addr: nat, esp: nat)
    requires Inv(v) && CanFault(v, pid, esp)
    ensures var r := PageFault(v, pid, addr, esp); Faulted(v, r.vm, pid, addr, r.Killed?) && Inv(r.vm)
  {
    FaultIsFaithful(v, pid, addr, esp);
    EspStays(v, pid, addr, esp);
    hide PageFault, StackAccess, Resident, Inv, CanFault;
  }

  /** After the stack pointer is saved the fault leaves it alone. */
  lemma EspStays(v: Vm, pid: nat, addr: nat, esp: nat)
    requires Inv(v) && CanFault(v, pid, esp)
    ensures PageFault(v, pid, addr, esp).vm.esp == UpdateEsp(v, pid, esp).esp
  {
    hide Inv, Faithful, WithFrame, CanGetFrame;
    EspKeeps(v, pid, esp);
    FaithfulBoth(v, UpdateEsp(v, pid, esp));
    WithFrameKeeps(UpdateEsp(v, pid, esp));
  }
}
