/**
 The 64-slot write-back buffer cache (src/filesys/cache.c), proved to behave as
 a flat array of sectors.
 */
module BufferCache {
  import opened Sequences
  import opened Storage

  const CACHE_SIZE := 64

  datatype Slot = Slot(inUse: bool, sector: nat, accessed: bool, dirty: bool, data: Sector)

  // ----- the logical contents -----

  predicate Holds(s: Slot, sec: nat)
  {
    s.inUse && s.sector == sec
  }

  /** The first slot that holds `sec`, or the number of slots. */
  function Find(slots: seq<Slot>, sec: nat): (i: nat)
    ensures i <= |slots|
    ensures i < |slots| ==> Holds(slots[i], sec)
    ensures forall j :: 0 <= j < i ==> !Holds(slots[j], sec)
  {
    if slots == [] || Holds(slots[0], sec) then 0 else 1 + Find(slots[1..], sec)
  }

  lemma {:induction false} FindUnique(slots: seq<Slot>, sec: nat, i: nat)
    requires i <= |slots| && (i < |slots| ==> Holds(slots[i], sec))
    requires forall j :: 0 <= j < i ==> !Holds(slots[j], sec)
    ensures Find(slots, sec) == i
  {
    if i > 0 {
      FindUnique(slots[1..], sec, i - 1);
    }
  }

  /** What a reader of the cache sees: a cached sector's data, or the disk's. */
  function Logical(slots: seq<Slot>, disk: seq<Sector>): (r: seq<Sector>)
    ensures |r| == |disk|
    ensures forall s :: 0 <= s < |disk| ==>
      r[s] == if Find(slots, s) < |slots| then slots[Find(slots, s)].data else disk[s]
  {
    seq(|disk|, s requires 0 <= s < |disk| => if Find(slots, s) < |slots| then slots[Find(slots, s)].data else disk[s])
  }

  /** No sector is cached twice, cached sectors exist, and a slot that is not
      marked dirty agrees with the disk. */
  ghost predicate Consistent(slots: seq<Slot>, disk: seq<Sector>)
  {
    && (forall i, j :: 0 <= i < j < |slots| && slots[i].inUse && slots[j].inUse ==> slots[i].sector != slots[j].sector)
    && (forall i :: 0 <= i < |slots| ==> |slots[i].data| == SECTOR_SIZE)
    && (forall i :: 0 <= i < |slots| && slots[i].inUse ==> slots[i].sector < |disk|)
    && (forall i :: 0 <= i < |slots| && slots[i].inUse && !slots[i].dirty ==> slots[i].data == disk[slots[i].sector])
    && (forall s :: 0 <= s < |disk| ==> |disk[s]| == SECTOR_SIZE)
  }

  lemma FindHolder(slots: seq<Slot>, disk: seq<Sector>, i: nat)
    requires Consistent(slots, disk) && i < |slots| && slots[i].inUse
    ensures Find(slots, slots[i].sector) == i
  {
    FindUnique(slots, slots[i].sector, i);
  }

  /** Writing a slot's data through to the disk changes nothing a reader sees. */
  lemma WriteThrough(slots: seq<Slot>, disk: seq<Sector>, i: nat)
    requires Consistent(slots, disk) && i < |slots| && slots[i].inUse
    ensures Consistent(slots, disk[slots[i].sector := slots[i].data])
    ensures Logical(slots, disk[slots[i].sector := slots[i].data]) == Logical(slots, disk)
  {
    FindHolder(slots, disk, i);
  }

  /** The first `n` slots agree with the disk. */
  ghost predicate Flushed(slots: seq<Slot>, disk: seq<Sector>, n: nat)
  {
    forall j :: 0 <= j < n && j < |slots| && slots[j].inUse ==>
      slots[j].sector < |disk| && slots[j].data == disk[slots[j].sector]
  }

  lemma FlushOne(slots: seq<Slot>, disk: seq<Sector>, i: nat)
    requires Consistent(slots, disk) && i < |slots| && Flushed(slots, disk, i)
    ensures slots[i].inUse ==> slots[i].sector < |disk|
    ensures var d := if slots[i].inUse && slots[i].dirty then disk[slots[i].sector := slots[i].data] else disk;
      Consistent(slots, d) && Logical(slots, d) == Logical(slots, disk) && Flushed(slots, d, i + 1)
  {
    if slots[i].inUse && slots[i].dirty {
      WriteThrough(slots, disk, i);
    }
  }

  lemma FlushedAll(slots: seq<Slot>, disk: seq<Sector>)
    requires Flushed(slots, disk, |slots|)
    ensures disk == Logical(slots, disk)
  {
  }

  /** Dropping a slot that agrees with the disk changes nothing a reader sees. */
  lemma Drop(slots: seq<Slot>, disk: seq<Sector>, i: nat)
    requires Consistent(slots, disk) && i < |slots| && slots[i].inUse
    requires disk[slots[i].sector] == slots[i].data
    ensures var after := slots[i := slots[i].(inUse := false)];
      && Consistent(after, disk) && Logical(after, disk) == Logical(slots, disk)
      && Find(after, slots[i].sector) == |slots|
  {
    var after := slots[i := slots[i].(inUse := false)];
    var sec := slots[i].sector;
    FindHolder(slots, disk, i);
    FindUnique(after, sec, |slots|);
    forall s | 0 <= s < |disk| && s != sec ensures Find(after, s) == Find(slots, s) {
      FindUnique(after, s, Find(slots, s));
    }
  }

  /** Loading an uncached sector into a free slot changes nothing a reader sees. */
  lemma Load(slots: seq<Slot>, disk: seq<Sector>, i: nat, sec: nat, dirty: bool)
    requires Consistent(slots, disk) && i < |slots| && !slots[i].inUse && sec < |disk|
    requires Find(slots, sec) == |slots|
    ensures var after := slots[i := Slot(true, sec, true, dirty, disk[sec])];
      && Consistent(after, disk) && Logical(after, disk) == Logical(slots, disk) && Find(after, sec) == i
  {
    var after := slots[i := Slot(true, sec, true, dirty, disk[sec])];
    FindUnique(after, sec, i);
    forall s | 0 <= s < |disk| && s != sec ensures Find(after, s) == Find(slots, s) {
      FindUnique(after, s, Find(slots, s));
    }
  }

  /** Changing a held sector in its slot changes exactly that sector. */
  lemma Store(slots: seq<Slot>, disk: seq<Sector>, i: nat, data: Sector)
    requires Consistent(slots, disk) && i < |slots| && slots[i].inUse && |data| == SECTOR_SIZE
    ensures var after := slots[i := slots[i].(data := data, dirty := true)];
      && Consistent(after, disk) && Logical(after, disk) == Logical(slots, disk)[slots[i].sector := data]
  {
    var after := slots[i := slots[i].(data := data, dirty := true)];
    FindHolder(slots, disk, i);
    forall s | 0 <= s < |disk| ensures Find(after, s) == Find(slots, s) {
      FindUnique(after, s, Find(slots, s));
    }
  }

  // ----- the clock -----

  /** How many places ahead of `start` slot `i` is in clock order. */
  function Ahead(start: nat, i: nat, n: nat): int
  {
    if i >= start then i - start else i - start + n
  }

  /** The hand stops at `r` after passing `steps` accessed slots: at the first slot
      in clock order that is not accessed, or back at the start after one round. */
  ghost predicate StopsAt(slots: seq<Slot>, start: nat, r: nat, steps: nat)
  {
    && steps <= |slots| && r < |slots|
    && Ahead(start, r, |slots|) == (if steps == |slots| then 0 else steps)
    && (forall i :: 0 <= i < |slots| && Ahead(start, i, |slots|) < steps ==> slots[i].accessed)
    && (steps < |slots| ==> !slots[r].accessed)
  }

  /** The accessed bits of the slots passed are cleared, and nothing else. */
  function Swept(slots: seq<Slot>, start: nat, steps: nat): (r: seq<Slot>)
    ensures |r| == |slots|
    ensures forall i :: 0 <= i < |slots| ==>
      r[i] == if Ahead(start, i, |slots|) < steps then slots[i].(accessed := false) else slots[i]
  {
    seq(|slots|, i requires 0 <= i < |slots| =>
      if Ahead(start, i, |slots|) < steps then slots[i].(accessed := false) else slots[i])
  }

  /** There is only one place where the hand can stop. */
  lemma StopUnique(slots: seq<Slot>, start: nat, r: nat, steps: nat, r': nat, steps': nat)
    requires start < |slots| && StopsAt(slots, start, r, steps) && StopsAt(slots, start, r', steps')
    ensures r == r' && steps == steps'
  {
  }

  /** Sweeping is invisible to readers. */
  lemma SweepIsInvisible(slots: seq<Slot>, disk: seq<Sector>, start: nat, steps: nat)
    requires Consistent(slots, disk)
    ensures Consistent(Swept(slots, start, steps), disk)
    ensures Logical(Swept(slots, start, steps), disk) == Logical(slots, disk)
  {
    var after := Swept(slots, start, steps);
    forall s | 0 <= s < |disk| ensures Find(after, s) == Find(slots, s) {
      SweptFind(slots, start, steps, s);
    }
  }

  lemma SweptFind(slots: seq<Slot>, start: nat, steps: nat, s: nat)
    ensures Find(Swept(slots, start, steps), s) == Find(slots, s)
  {
    FindUnique(Swept(slots, start, steps), s, Find(slots, s));
  }

  // ----- the flat array the cache stands for -----

  datatype Op =
    | ReadOp(sec: nat, size: nat, offset: nat)
    | WriteOp(sec: nat, bytes: seq<Byte>, offset: nat)
    | ReleaseOp(sec: nat)
    | WriteBackOp

  /** Calls the file system makes: existing sectors, and bytes inside one sector. */
  predicate InBounds(op: Op, n: nat)
  {
    match op
    case ReadOp(sec, size, offset) => sec < n && offset + size <= SECTOR_SIZE
    case WriteOp(sec, bytes, offset) => sec < n && offset + |bytes| <= SECTOR_SIZE
    case _ => true
  }

  ghost predicate Sectors(a: seq<Sector>)
  {
    forall s :: 0 <= s < |a| ==> |a[s]| == SECTOR_SIZE
  }

  /** A plain array of sectors after one call. */
  function FlatStep(a: seq<Sector>, op: Op): (r: seq<Sector>)
    requires Sectors(a) && InBounds(op, |a|)
    ensures |r| == |a| && Sectors(r)
  {
    if op.WriteOp? then a[op.sec := Overlay(a[op.sec], op.offset, op.bytes)] else a
  }

  /** What the call returns on it. */
  function FlatRead(a: seq<Sector>, op: Op): seq<seq<Byte>>
    requires Sectors(a) && InBounds(op, |a|)
  {
    if op.ReadOp? then [a[op.sec][op.offset..op.offset + op.size]] else []
  }

  /** A plain array of sectors after the calls. */
  ghost function FlatAfter(a: seq<Sector>, ops: seq<Op>): (r: seq<Sector>)
    requires Sectors(a) && forall i :: 0 <= i < |ops| ==> InBounds(ops[i], |a|)
    ensures |r| == |a| && Sectors(r)
  {
    if ops == [] then a
    else
      assert InBounds(ops[|ops| - 1], |a|);
      FlatStep(FlatAfter(a, ops[..|ops| - 1]), ops[|ops| - 1])
  }

  /** What the reads among the calls return on a plain array. */
  ghost function FlatReads(a: seq<Sector>, ops: seq<Op>): seq<seq<Byte>>
    requires Sectors(a) && forall i :: 0 <= i < |ops| ==> InBounds(ops[i], |a|)
  {
    if ops == [] then []
    else
      var before, op := ops[..|ops| - 1], ops[|ops| - 1];
      assert InBounds(op, |a|);
      FlatReads(a, before) + FlatRead(FlatAfter(a, before), op)
  }

  // ----- the cache -----

  /** Slot `r` was made room in: the first unused one, or else the one where the clock
      hand stops; nothing happens to the others but that the hand passes them. */
  ghost predicate MadeRoom(s0: seq<Slot>, start0: nat, s: seq<Slot>, start: nat, r: nat)
  {
    && |s| == |s0| && r < |s0|
    && if exists i :: 0 <= i < |s0| && !s0[i].inUse
       then !s0[r].inUse && (forall i :: 0 <= i < r ==> s0[i].inUse) && s == s0[r := s[r]] && start == start0
       else exists steps: nat ::
              StopsAt(s0, start0, r, steps) && s == Swept(s0, start0, steps)[r := s[r]] && start == (r + 1) % |s0|
  }

  /** What a read or write of sector `sec` does to the slots: it uses the one that holds
      the sector, or one made room in, which counts as accessed then. */
  ghost predicate Uses(s0: seq<Slot>, start0: nat, s: seq<Slot>, start: nat, sec: nat)
  {
    var i := Find(s0, sec);
    if i < |s0| then |s| == |s0| && s == s0[i := s0[i].(data := s[i].data, dirty := s[i].dirty)] && start == start0
    else exists r: nat :: MadeRoom(s0, start0, s, start, r) && Holds(s[r], sec) && s[r].accessed
  }

  lemma UsesMore(s0: seq<Slot>, start0: nat, s: seq<Slot>, start: nat, sec: nat, i: nat, data: Sector)
    requires Uses(s0, start0, s, start, sec) && i < |s| && Find(s, sec) == i && Holds(s[i], sec)
    ensures Uses(s0, start0, s[i := s[i].(data := data, dirty := true)], start, sec)
  {
    var s', k := s[i := s[i].(data := data, dirty := true)], Find(s0, sec);
    if k < |s0| {
      FindUnique(s, sec, k);
    } else {
      var r: nat :| MadeRoom(s0, start0, s, start, r) && Holds(s[r], sec) && s[r].accessed;
      RoomIsThere(s0, start0, s, start, sec, r);
      assert r == i;
      StillRoom(s0, start0, s, start, r, s'[r]);
    }
  }

  /** Where no slot held the sector, only the one made room in does. */
  lemma RoomIsThere(s0: seq<Slot>, start0: nat, s: seq<Slot>, start: nat, sec: nat, r: nat)
    requires MadeRoom(s0, start0, s, start, r) && Find(s0, sec) == |s0| && Holds(s[r], sec)
    ensures Find(s, sec) == r
  {
    forall j | 0 <= j < r ensures !Holds(s[j], sec) {
      assert s[j].inUse == s0[j].inUse && s[j].sector == s0[j].sector;
    }
    FindUnique(s, sec, r);
  }

  lemma RoomUnused(s: seq<Slot>, start: nat, r: nat)
    requires r < |s| && !s[r].inUse && forall i :: 0 <= i < r ==> s[i].inUse
    ensures MadeRoom(s, start, s, start, r)
  {
    assert s == s[r := s[r]];
  }

  lemma RoomSwept(s0: seq<Slot>, start0: nat, s: seq<Slot>, start: nat, r: nat, steps: nat)
    requires |s| == |s0| && r < |s0| && (forall i :: 0 <= i < |s0| ==> s0[i].inUse) && StopsAt(s0, start0, r, steps)
    requires s == Swept(s0, start0, steps)[r := s[r]] && start == (r + 1) % |s0|
    ensures MadeRoom(s0, start0, s, start, r)
  {
    hide StopsAt, Swept;
  }

  lemma StillRoom(s0: seq<Slot>, start0: nat, s: seq<Slot>, start: nat, r: nat, x: Slot)
    requires MadeRoom(s0, start0, s, start, r)
    ensures MadeRoom(s0, start0, s[r := x], start, r)
  {
    var s' := s[r := x];
    if exists i :: 0 <= i < |s0| && !s0[i].inUse {
      assert s' == s0[r := s'[r]];
    } else {
      var steps: nat :|
        StopsAt(s0, start0, r, steps) && s == Swept(s0, start0, steps)[r := s[r]] && start == (r + 1) % |s0|;
      assert s' == Swept(s0, start0, steps)[r := s'[r]];
    }
  }

  class Cache {
    const slots: array<Slot>
    var lookupStart: nat
    var disk: seq<Sector>

    ghost predicate Valid()
      reads this, slots
    {
      slots.Length == CACHE_SIZE && lookupStart < CACHE_SIZE && Consistent(slots[..], disk)
    }

    ghost function Contents(): seq<Sector>
      reads this, slots
    {
      Logical(slots[..], disk)
    }

    /** buffer_cache_init over a given disk. */
    constructor (d: seq<Sector>)
      requires forall s :: 0 <= s < |d| ==> |d[s]| == SECTOR_SIZE
      ensures Valid() && Contents() == d && fresh(slots) && slots.Length == 64 && lookupStart == 0
      ensures forall i :: 0 <= i < 64 ==> !slots[i].inUse
    {
      slots := new Slot[CACHE_SIZE](i => Slot(false, 0, false, false, seq(SECTOR_SIZE, j => 0)));
      lookupStart, disk := 0, d;
      new;
      forall s | 0 <= s < |d| ensures Find(slots[..], s) == CACHE_SIZE {
        FindUnique(slots[..], s, CACHE_SIZE);
      }
    }

    method Lookup(sec: nat) returns (i: nat)
      ensures i == Find(slots[..], sec)
    {
      i := 0;
      while i < slots.Length && !(slots[i].sector == sec && slots[i].inUse)
        invariant i <= slots.Length
        invariant forall j :: 0 <= j < i ==> !Holds(slots[j], sec)
      {
        i := i + 1;
      }
      FindUnique(slots[..], sec, i);
    }

    /** Writes slot `i` to disk if it is marked dirty, and marks it unused. */
    method Vacate(i: nat)
      requires Valid() && i < CACHE_SIZE && slots[i].inUse
      modifies this`disk, slots
      ensures Valid() && Contents() == old(Contents())
      ensures slots[..] == old(slots[..])[i := old(slots[i]).(inUse := false)]
      ensures Find(slots[..], old(slots[i].sector)) == CACHE_SIZE
      ensures |disk| == old(|disk|)
    {
      if slots[i].dirty {
        WriteThrough(slots[..], disk, i);
        disk := disk[slots[i].sector := slots[i].data];
      }
      Drop(slots[..], disk, i);
      slots[i] := slots[i].(inUse := false);
      assert slots[..] == old(slots[..])[i := old(slots[i]).(inUse := false)];
    }

    /** buffer_cache_release. */
    method Release(sec: nat) returns (found: bool)
      requires Valid()
      modifies this`disk, slots
      ensures Valid() && Contents() == old(Contents())
      ensures found <==> old(Find(slots[..], sec)) < CACHE_SIZE
      ensures Find(slots[..], sec) == CACHE_SIZE
      ensures sec < |disk| ==> disk[sec] == Contents()[sec]
    {
      var i := Lookup(sec);
      if i == slots.Length {
        return false;
      }
      Vacate(i);
      return true;
    }

    /** buffer_cache_find_victim: the first unused slot, or the one where the
        clock hand stops, vacated. */
    method FindVictim() returns (r: nat)
      requires Valid()
      modifies this, slots
      ensures Valid() && Contents() == old(Contents()) && |disk| == old(|disk|)
      ensures r < CACHE_SIZE && !slots[r].inUse
      ensures forall sec :: Find(old(slots[..]), sec) == CACHE_SIZE ==> Find(slots[..], sec) == CACHE_SIZE
      ensures if exists i :: 0 <= i < CACHE_SIZE && !old(slots[i]).inUse
              then slots[..] == old(slots[..]) && (forall i :: 0 <= i < r ==> slots[i].inUse) && lookupStart == old(lookupStart)
              else exists steps: nat ::
                     && StopsAt(old(slots[..]), old(lookupStart), r, steps)
                     && slots[..] == Swept(old(slots[..]), old(lookupStart), steps)[r := slots[r]]
                     && lookupStart == (r + 1) % CACHE_SIZE
      ensures MadeRoom(old(slots[..]), old(lookupStart), slots[..], lookupStart, r)
    {
      hide Consistent, Logical, StopsAt, Swept, MadeRoom;
      ghost var s0, start0 := slots[..], lookupStart;
      r := FirstUnused();
      if r < CACHE_SIZE {
        RoomUnused(s0, start0, r);
      } else {
        ghost var steps;
        r, steps := Sweep();
        lookupStart := (r + 1) % CACHE_SIZE;
        ghost var swept := slots[..];
        SweptStaysInUse(old(slots[..]), old(lookupStart), steps, r);
        Vacate(r);
        forall sec | Find(old(slots[..]), sec) == CACHE_SIZE ensures Find(slots[..], sec) == CACHE_SIZE {
          StillAbsent(old(slots[..]), old(lookupStart), steps, r, sec);
        }
        assert slots[..] == swept[r := slots[r]];
        RoomSwept(s0, start0, slots[..], lookupStart, r, steps);
      }
    }

    method FirstUnused() returns (r: nat)
      requires slots.Length == CACHE_SIZE
      ensures r <= CACHE_SIZE && (r < CACHE_SIZE ==> !slots[r].inUse)
      ensures forall i :: 0 <= i < r ==> slots[i].inUse
    {
      r := 0;
      while r < CACHE_SIZE && slots[r].inUse
        invariant r <= CACHE_SIZE
        invariant forall i :: 0 <= i < r ==> slots[i].inUse
      {
        r := r + 1;
      }
    }

    /** The clock hand. */
    method Sweep() returns (r: nat, ghost steps: nat)
      requires Valid()
      modifies slots
      ensures Valid() && Contents() == old(Contents()) && r < CACHE_SIZE
      ensures StopsAt(old(slots[..]), lookupStart, r, steps) && slots[..] == Swept(old(slots[..]), lookupStart, steps)
    {
      hide Consistent, Logical;
      r, steps := lookupStart, 0;
      ghost var s, start := slots[..], lookupStart;
      while slots[r].accessed
        invariant r < CACHE_SIZE && steps <= CACHE_SIZE && lookupStart == start
        invariant Ahead(start, r, CACHE_SIZE) == if steps == CACHE_SIZE then 0 else steps
        invariant slots[..] == Swept(s, start, steps)
        invariant forall i :: 0 <= i < CACHE_SIZE && Ahead(start, i, CACHE_SIZE) < steps ==> s[i].accessed
        decreases CACHE_SIZE - steps
      {
        assert slots[..][r].accessed;
        slots[r] := slots[r].(accessed := false);
        r := (r + 1) % CACHE_SIZE;
        steps := steps + 1;
      }
      assert slots[..][r] == slots[r];
      SweepIsInvisible(s, disk, start, steps);
      assert StopsAt(s, start, r, steps);
    }

    /** The slot that holds `sec`, loading it if need be. */
    method Fetch(sec: nat) returns (i: nat)
      requires Valid() && sec < |disk|
      modifies this, slots
      ensures Valid() && Contents() == old(Contents()) && |disk| == old(|disk|)
      ensures i < CACHE_SIZE && Holds(slots[i], sec) && Find(slots[..], sec) == i && slots[i].data == Contents()[sec]
      ensures Uses(old(slots[..]), old(lookupStart), slots[..], lookupStart, sec)
      ensures old(Find(slots[..], sec)) < CACHE_SIZE ==> slots[..] == old(slots[..]) && disk == old(disk)
    {
      hide MadeRoom;
      ghost var s0 := slots[..];
      i := Lookup(sec);
      if i == slots.Length {
        i := FindVictim();
        Load(slots[..], disk, i, sec, slots[i].dirty);
        ghost var s1 := slots[..];
        // the dirty bit of the slot is left as it was
        slots[i] := slots[i].(data := disk[sec], inUse := true, accessed := true, sector := sec);
        StillRoom(s0, old(lookupStart), s1, lookupStart, i, slots[i]);
        assert slots[..] == s1[i := slots[i]];
        RoomIsThere(s0, old(lookupStart), slots[..], lookupStart, sec, i);
      }
    }

    /** buffer_cache_read. */
    method Read(sec: nat, size: nat, offset: nat) returns (bytes: seq<Byte>)
      requires Valid() && sec < |disk| && offset + size <= SECTOR_SIZE
      modifies this, slots
      ensures Valid() && Contents() == old(Contents()) && |disk| == old(|disk|)
      ensures |Contents()[sec]| == SECTOR_SIZE && bytes == Contents()[sec][offset..offset + size]
      ensures Uses(old(slots[..]), old(lookupStart), slots[..], lookupStart, sec)
      ensures old(Find(slots[..], sec)) < CACHE_SIZE ==> slots[..] == old(slots[..]) && disk == old(disk)
    {
      hide Uses;
      var i := Fetch(sec);
      bytes := slots[i].data[offset..offset + size];
    }

    /** buffer_cache_write. */
    method Write(sec: nat, bytes: seq<Byte>, offset: nat)
      requires Valid() && sec < |disk| && offset + |bytes| <= SECTOR_SIZE
      modifies this, slots
      ensures Valid() && |disk| == old(|disk|)
      ensures |old(Contents())[sec]| == SECTOR_SIZE
      ensures Contents() == old(Contents())[sec := Overlay(old(Contents())[sec], offset, bytes)]
      ensures Uses(old(slots[..]), old(lookupStart), slots[..], lookupStart, sec)
      ensures old(Find(slots[..], sec)) < CACHE_SIZE ==> disk == old(disk)
    {
      hide Uses;
      var i := Fetch(sec);
      var data := Overlay(slots[i].data, offset, bytes);
      Store(slots[..], disk, i, data);
      UsesMore(old(slots[..]), old(lookupStart), slots[..], lookupStart, sec, i, data);
      ghost var before := slots[..];
      slots[i] := slots[i].(data := data, dirty := true);
      assert slots[..] == before[i := before[i].(data := data, dirty := true)];
    }

    /** buffer_cache_write_back: afterwards the disk is what readers see. */
    method WriteBack()
      requires Valid()
      modifies this`disk
      ensures Valid() && Contents() == old(Contents()) && disk == Contents()
    {
      ghost var s := slots[..];
      assert Flushed(s, disk, 0);
      hide Consistent, Logical, Flushed;
      for i := 0 to CACHE_SIZE
        invariant slots[..] == s && Consistent(s, disk) && Flushed(s, disk, i)
        invariant Logical(s, disk) == Logical(s, old(disk))
      {
        FlushOne(s, disk, i);
        assert slots[i] == s[i];
        if slots[i].inUse && slots[i].dirty {
          disk := disk[slots[i].sector := slots[i].data];
        }
      }
      FlushedAll(s, disk);
    }

    method Do(op: Op) returns (result: seq<seq<Byte>>)
      requires Valid() && InBounds(op, |disk|)
      modifies this, slots
      ensures Valid() && |disk| == |old(disk)| && Sectors(old(Contents()))
      ensures InBounds(op, |old(Contents())|)
      ensures Contents() == FlatStep(old(Contents()), op) && result == FlatRead(old(Contents()), op)
    {
      hide Consistent, Logical;
      ContentsAreSectors(slots[..], disk);
      result := [];
      match op {
        case ReadOp(sec, size, offset) =>
          var bytes := Read(sec, size, offset);
          result := [bytes];
        case WriteOp(sec, bytes, offset) =>
          Write(sec, bytes, offset);
        case ReleaseOp(sec) =>
          var _ := Release(sec);
        case WriteBackOp =>
          WriteBack();
      }
    }

    /** Any sequence of calls behaves as on a plain array of sectors. */
    method Run(ops: seq<Op>) returns (results: seq<seq<Byte>>)
      requires Valid() && forall i :: 0 <= i < |ops| ==> InBounds(ops[i], |disk|)
      modifies this, slots
      ensures Valid() && Sectors(old(Contents()))
      ensures Contents() == FlatAfter(old(Contents()), ops)
      ensures results == FlatReads(old(Contents()), ops)
    {
      results := [];
      hide Consistent, Logical, FlatStep, FlatRead, Sectors, InBounds;
      ContentsAreSectors(slots[..], disk);
      ghost var a := Contents();
      for n := 0 to |ops|
        invariant Valid() && |disk| == |a|
        invariant Contents() == FlatAfter(a, ops[..n])
        invariant results == FlatReads(a, ops[..n])
      {
        assert ops[..n + 1][..n] == ops[..n];
        var result := Do(ops[n]);
        results := results + result;
      }
      assert ops[..|ops|] == ops;
    }
  }

  lemma SweptStaysInUse(slots: seq<Slot>, start: nat, steps: nat, r: nat)
    requires r < |slots|
    ensures Swept(slots, start, steps)[r].inUse == slots[r].inUse
  {
  }

  lemma StillAbsent(slots: seq<Slot>, start: nat, steps: nat, r: nat, sec: nat)
    requires r < |slots| && Find(slots, sec) == |slots|
    ensures var swept := Swept(slots, start, steps); Find(swept[r := swept[r].(inUse := false)], sec) == |slots|
  {
    var swept := Swept(slots, start, steps);
    FindUnique(swept[r := swept[r].(inUse := false)], sec, |slots|);
  }

  lemma ContentsAreSectors(slots: seq<Slot>, disk: seq<Sector>)
    requires Consistent(slots, disk)
    ensures Sectors(Logical(slots, disk))
  {
  }
}
