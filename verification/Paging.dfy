/** The two-level page tables refine a flat map from pages to frames. */
module Paging {
  import opened Word32

  const PAGE_SIZE: int := 4096
  const PAGE_PRESENT: int := 0x1
  const PAGE_WRITE: int := 0x2
  const PAGE_USER: int := 0x4

  const MAPPED_TABLES: int := 4
  const MAPPED_PAGES: int := 4096
  const USER_TABLE: int := 2
  const USER_BASE: int := 0x0080_0000
  const USER_REGION_SIZE: int := 0x0040_0000

  // ----- Entries: a page-aligned frame with flags in the low twelve bits -----

  function FrameOf(entry: u32): (f: u32)
    ensures f % PAGE_SIZE == 0
  {
    entry - entry % PAGE_SIZE
  }

  function IsPresent(entry: u32): bool {
    entry % 2 == 1
  }

  function IsWritable(entry: u32): bool {
    entry / 2 % 2 == 1
  }

  function IsUser(entry: u32): bool {
    entry / 4 % 2 == 1
  }

  /** `(phys & 0xFFFFF000) | (flags & 0xFFF) | PAGE_PRESENT` */
  function PresentEntry(phys: u32, flags: u32): u32 {
    var low := flags % PAGE_SIZE;
    FrameOf(phys) + if low % 2 == 0 then low + 1 else low
  }

  lemma EvenShift(m: int, x: int)
    ensures (2 * m + x) % 2 == x % 2
  {
  }

  lemma HalfShift(m: int, x: int)
    ensures (2 * m + x) / 2 == m + x / 2
  {
  }

  lemma QuarterShift(m: int, x: int)
    ensures (4 * m + x) / 4 == m + x / 4
  {
  }

  /** The flags of an entry do not disturb its frame, nor the frame its flags. */
  lemma EntryParts(frame: u32, low: u32)
    requires frame % PAGE_SIZE == 0 && low < PAGE_SIZE
    ensures frame + low < MODULUS
    ensures FrameOf(frame + low) == frame
    ensures IsPresent(frame + low) == IsPresent(low)
    ensures IsWritable(frame + low) == IsWritable(low)
    ensures IsUser(frame + low) == IsUser(low)
  {
    FrameBound(frame, low);
    var k := frame / PAGE_SIZE;
    assert frame == PAGE_SIZE * k;
    EvenShift(2048 * k, low);
    HalfShift(2048 * k, low);
    EvenShift(1024 * k, low / 2);
    QuarterShift(1024 * k, low);
    EvenShift(512 * k, low / 4);
  }

  lemma FrameBound(frame: u32, low: u32)
    requires frame % PAGE_SIZE == 0 && low < PAGE_SIZE
    ensures frame + low < MODULUS && FrameOf(frame + low) == frame
  {
  }

  /** Setting the lowest bit changes no other flag. */
  lemma SetPresent(low: u32)
    requires low % 2 == 0 && low + 1 < MODULUS
    ensures IsPresent(low + 1) && IsWritable(low + 1) == IsWritable(low) && IsUser(low + 1) == IsUser(low)
  {
  }

  lemma LowFlags(flags: u32)
    ensures IsWritable(flags % PAGE_SIZE) == IsWritable(flags) && IsUser(flags % PAGE_SIZE) == IsUser(flags)
  {
    var low: u32, frame: u32 := flags % PAGE_SIZE, FrameOf(flags);
    EntryParts(frame, low);
  }

  lemma PresentEntryParts(phys: u32, flags: u32)
    ensures var e := PresentEntry(phys, flags);
            && IsPresent(e) && FrameOf(e) == FrameOf(phys)
            && IsWritable(e) == IsWritable(flags) && IsUser(e) == IsUser(flags)
  {
    LowFlags(flags);
    var low: u32 := flags % PAGE_SIZE;
    if low % 2 == 0 {
      SetPresent(low);
    }
    EntryParts(FrameOf(phys), if low % 2 == 0 then low + 1 else low);
    hide FrameOf, IsPresent, IsWritable, IsUser;
  }

  // ----- Address translation (Intel SDM volume 3A, sections 4.3 and 4.6) -----

  datatype Translation = NotPresent | Translated(phys: u32, user: bool, writable: bool)

  /** The tables in memory: the directory, and four page tables one after another from `base` on. */
  datatype Tables = Tables(directory: seq<u32>, entries: seq<u32>, base: u32)

  ghost predicate WellPlaced(t: Tables) {
    && |t.directory| == 1024 && |t.entries| == MAPPED_PAGES
    && t.base % PAGE_SIZE == 0 && t.base + MAPPED_TABLES * PAGE_SIZE < MODULUS
  }

  /** Physical memory as the walk reads it: the word at entry `i` of the table in frame `frame`. */
  function TableWord(t: Tables, frame: u32, i: int): u32
    requires WellPlaced(t) && 0 <= i < 1024
  {
    var k := frame - t.base;
    if 0 <= k < MAPPED_TABLES * PAGE_SIZE then t.entries[k / PAGE_SIZE * 1024 + i] else 0
  }

  /** Both levels must be present; user and write rights need both levels' flags. */
  function Walk(t: Tables, virt: u32): Translation
    requires WellPlaced(t)
  {
    var upper := t.directory[virt / 0x40_0000];
    if !IsPresent(upper) then NotPresent
    else
      var lower := TableWord(t, FrameOf(upper), virt / PAGE_SIZE % 1024);
      if !IsPresent(lower) then NotPresent
      else Translated(FrameOf(lower) + virt % PAGE_SIZE,
                      IsUser(upper) && IsUser(lower), IsWritable(upper) && IsWritable(lower))
  }

  // ----- The flat map -----

  datatype MapCall = MapCall(virt: u32, phys: u32, flags: u32)

  predicate InUserRegion(virt: int) {
    USER_BASE <= virt < USER_BASE + USER_REGION_SIZE
  }

  /** What `virt` means: the last mapping of its page if there is one, else the identity. */
  function Flat(calls: seq<MapCall>, virt: u32): Translation {
    if virt >= MAPPED_PAGES * PAGE_SIZE then NotPresent
    else if calls == [] then Translated(virt, InUserRegion(virt), true)
    else
      var c := calls[|calls| - 1];
      if c.virt / PAGE_SIZE == virt / PAGE_SIZE then
        Translated(FrameOf(c.phys) + virt % PAGE_SIZE, InUserRegion(virt) && IsUser(c.flags), IsWritable(c.flags))
      else Flat(calls[..|calls| - 1], virt)
  }

  // ----- What the code leaves in the tables -----

  function DefaultFlags(table: int): u32 {
    PAGE_PRESENT + PAGE_WRITE + if table == USER_TABLE then PAGE_USER else 0
  }

  ghost predicate Initialized(t: Tables) {
    && WellPlaced(t) && GoodDirectory(t)
    && forall p :: 0 <= p < MAPPED_PAGES ==> t.entries[p] == p * PAGE_SIZE + DefaultFlags(p / 1024)
  }

  /** The directory is never written after `paging_init`. */
  ghost predicate GoodDirectory(t: Tables)
    requires WellPlaced(t)
  {
    forall i :: 0 <= i < 1024 ==>
      t.directory[i] == if i < MAPPED_TABLES then t.base + i * PAGE_SIZE + DefaultFlags(i) else PAGE_WRITE
  }

  /** `paging_map`, which refuses addresses beyond its four tables. */
  function Map(t: Tables, c: MapCall): (u: Tables)
    requires WellPlaced(t)
    ensures WellPlaced(u)
  {
    if c.virt / PAGE_SIZE >= MAPPED_PAGES then t
    else t.(entries := t.entries[c.virt / PAGE_SIZE := PresentEntry(c.phys, c.flags)])
  }

  function MapAll(t: Tables, calls: seq<MapCall>): (u: Tables)
    requires WellPlaced(t)
    ensures WellPlaced(u) && u.directory == t.directory && u.base == t.base
  {
    if calls == [] then t else Map(MapAll(t, calls[..|calls| - 1]), calls[|calls| - 1])
  }

  lemma DirectoryEntry(t: Tables, i: int)
    requires WellPlaced(t) && GoodDirectory(t) && 0 <= i < 1024
    ensures IsPresent(t.directory[i]) <==> i < MAPPED_TABLES
    ensures i < MAPPED_TABLES ==>
              && FrameOf(t.directory[i]) == t.base + i * PAGE_SIZE
              && IsWritable(t.directory[i]) && (IsUser(t.directory[i]) <==> i == USER_TABLE)
  {
    if i < MAPPED_TABLES {
      DefaultFlagParts(i);
      EntryParts(t.base + i * PAGE_SIZE, DefaultFlags(i));
      hide FrameOf, IsPresent, IsWritable, IsUser, DefaultFlags;
    }
  }

  lemma DefaultFlagParts(table: int)
    ensures var f := DefaultFlags(table);
            f < PAGE_SIZE && IsPresent(f) && IsWritable(f) && (IsUser(f) <==> table == USER_TABLE)
  {
  }

  /** A walk reads the one entry of its page, under the rights of its table. */
  lemma WalkReadsEntry(t: Tables, virt: u32)
    requires WellPlaced(t) && GoodDirectory(t)
    ensures virt >= MAPPED_PAGES * PAGE_SIZE ==> Walk(t, virt) == NotPresent
    ensures virt < MAPPED_PAGES * PAGE_SIZE ==>
              var e := t.entries[virt / PAGE_SIZE];
              Walk(t, virt) == if !IsPresent(e) then NotPresent
                               else Translated(FrameOf(e) + virt % PAGE_SIZE,
                                               InUserRegion(virt) && IsUser(e), IsWritable(e))
  {
    var i := virt / 0x40_0000;
    DirectoryEntry(t, i);
    hide IsPresent, IsWritable, IsUser, FrameOf, GoodDirectory;
    if i < MAPPED_TABLES {
      assert i * 1024 + virt / PAGE_SIZE % 1024 == virt / PAGE_SIZE;
      assert (t.base + i * PAGE_SIZE - t.base) / PAGE_SIZE == i;
    }
  }

  /** After `paging_init` and any mappings, every walk gives what the flat map gives. */
  lemma {:induction false} WalkRefinesFlatMap(t: Tables, calls: seq<MapCall>, virt: u32)
    requires Initialized(t)
    ensures Walk(MapAll(t, calls), virt) == Flat(calls, virt)
    decreases |calls|
  {
    var u := MapAll(t, calls);
    WalkReadsEntry(u, virt);
    if virt < MAPPED_PAGES * PAGE_SIZE {
      var p := virt / PAGE_SIZE;
      if calls == [] {
        IdentityEntry(t, virt);
      } else {
        var before := calls[..|calls| - 1];
        WalkRefinesFlatMap(t, before, virt);
        WalkReadsEntry(MapAll(t, before), virt);
        PresentEntryParts(calls[|calls| - 1].phys, calls[|calls| - 1].flags);
        hide PresentEntry, Walk, IsPresent, IsWritable, IsUser, FrameOf, GoodDirectory;
      }
    }
  }

  lemma IdentityEntry(t: Tables, virt: u32)
    requires Initialized(t) && virt < MAPPED_PAGES * PAGE_SIZE
    ensures var e := t.entries[virt / PAGE_SIZE];
            && IsPresent(e) && IsWritable(e)
            && FrameOf(e) + virt % PAGE_SIZE == virt
            && (IsUser(e) <==> InUserRegion(virt))
  {
    var p := virt / PAGE_SIZE;
    DefaultFlagParts(p / 1024);
    EntryParts(p * PAGE_SIZE, DefaultFlags(p / 1024));
    hide FrameOf, IsPresent, IsWritable, IsUser, DefaultFlags;
    assert t.entries[p] == p * PAGE_SIZE + DefaultFlags(p / 1024);
  }

  /** The words `paging_init` leaves: the identity up to 16 MB, user bit in the third table only, and no other table. */
  lemma InitialWords(t: Tables)
    requires Initialized(t)
    ensures forall p :: 0 <= p < 4096 ==> t.entries[p] == p * 0x1000 + (if 2048 <= p < 3072 then 7 else 3)
    ensures forall i :: 0 <= i < 4 ==> t.directory[i] == t.base + i * 0x1000 + (if i == 2 then 7 else 3)
    ensures forall i :: 4 <= i < 1024 ==> t.directory[i] == 2
  {
  }

  /** Before any mapping every address below 16 MB is itself, writable, and a user's from 8 MB to 12 MB. */
  lemma InitialWalk(t: Tables, virt: u32)
    requires Initialized(t)
    ensures Walk(t, virt)
         == if virt < 0x100_0000 then Translated(virt, 0x80_0000 <= virt < 0xC0_0000, true) else NotPresent
  {
    WalkRefinesFlatMap(t, [], virt);
    hide Walk, Initialized;
  }

  /** User code reaches nothing outside its region, whatever flags were passed to `paging_map`. */
  lemma UserStaysInRegion(t: Tables, calls: seq<MapCall>, virt: u32)
    requires Initialized(t)
    requires var w := Walk(MapAll(t, calls), virt); w.Translated? && w.user
    ensures InUserRegion(virt)
  {
    hide Walk, IsPresent, IsUser, IsWritable, FrameOf, DefaultFlags;
    WalkReadsEntry(MapAll(t, calls), virt);
  }

  // ----- Accepted user ranges -----

  /** `user_range_ok`, in 32-bit arithmetic. */
  function UserRangeOk(addr: u32, len: u32): bool {
    if addr < USER_BASE then false
    else if len > USER_REGION_SIZE then false
    else Wrap(addr - USER_BASE) <= Wrap(USER_REGION_SIZE - len)
  }

  /** Accepted exactly when the range lies in the user region, with no 32-bit wraparound. */
  lemma RangeOkIsContainment(addr: u32, len: u32)
    ensures UserRangeOk(addr, len) <==> 0x80_0000 <= addr && addr + len <= 0xC0_0000
  {
  }

  /** Call `i` is the last one that mapped the page. */
  ghost predicate IsLastFor(calls: seq<MapCall>, i: int, page: int) {
    && 0 <= i < |calls| && calls[i].virt / PAGE_SIZE == page
    && forall j :: i < j < |calls| ==> calls[j].virt / PAGE_SIZE != page
  }

  /** Was the page never mapped, or last with the user and the write flag? */
  ghost predicate LeftUserWritable(calls: seq<MapCall>, page: int) {
    forall i :: IsLastFor(calls, i, page) ==> IsUser(calls[i].flags) && IsWritable(calls[i].flags)
  }

  lemma LastMappingDecides(calls: seq<MapCall>, page: int)
    requires calls != []
    ensures var n := |calls| - 1;
            LeftUserWritable(calls, page)
            <==> if calls[n].virt / PAGE_SIZE == page then IsUser(calls[n].flags) && IsWritable(calls[n].flags)
                 else LeftUserWritable(calls[..n], page)
  {
    hide IsUser, IsWritable;
    var n := |calls| - 1;
    if calls[n].virt / PAGE_SIZE == page {
      assert IsLastFor(calls, n, page);
    } else {
      forall i ensures IsLastFor(calls, i, page) <==> IsLastFor(calls[..n], i, page) {
      }
    }
  }

  lemma {:induction false} FlatUserWritable(calls: seq<MapCall>, virt: u32)
    requires InUserRegion(virt)
    ensures var w := Flat(calls, virt);
            && w.Translated?
            && (w.user && w.writable <==> LeftUserWritable(calls, virt / PAGE_SIZE))
    decreases |calls|
  {
    hide IsUser, IsWritable, LeftUserWritable, FrameOf;
    if calls == [] {
      NeverMapped(virt / PAGE_SIZE);
    } else {
      LastMappingDecides(calls, virt / PAGE_SIZE);
      FlatUserWritable(calls[..|calls| - 1], virt);
    }
  }

  lemma NeverMapped(page: int)
    ensures LeftUserWritable([], page)
  {
  }

  /**
    After any mappings, user code may write a byte of an accepted range exactly if its page was never mapped, or last
    with the user and the write flag.
   */
  lemma AcceptedRangeIsWritable(t: Tables, calls: seq<MapCall>, addr: u32, len: u32, virt: u32)
    requires Initialized(t) && UserRangeOk(addr, len) && addr <= virt < addr + len
    ensures var w := Walk(MapAll(t, calls), virt);
            && w.Translated?
            && (w.user && w.writable <==> LeftUserWritable(calls, virt / PAGE_SIZE))
    ensures calls == [] ==> Walk(MapAll(t, calls), virt) == Translated(virt, true, true)
  {
    hide Walk, LeftUserWritable, Initialized;
    RangeOkIsContainment(addr, len);
    WalkRefinesFlatMap(t, calls, virt);
    FlatUserWritable(calls, virt);
  }

  // ----- The tables as the code fills them -----

  class PageTables {
    const directory: array<u32>
    const entries: array<u32>  // MAPPED_TABLES tables of 1024 words
    const base: u32  // where `entries` lies in physical memory

    ghost function Now(): Tables
      reads directory, entries
    {
      Tables(directory[..], entries[..], base)
    }

    ghost predicate Valid()
      reads directory, entries
    {
      WellPlaced(Now()) && directory != entries
    }

    constructor (base: u32)
      requires base % PAGE_SIZE == 0 && base + MAPPED_TABLES * PAGE_SIZE < MODULUS
      ensures Valid() && this.base == base
    {
      directory := new u32[1024];
      entries := new u32[MAPPED_PAGES];
      this.base := base;
    }

    method Init()
      requires Valid()
      modifies directory, entries
      ensures Valid() && Initialized(Now())
    {
      var i := 0;
      while i < 1024
        invariant 0 <= i <= 1024
        invariant forall k :: 0 <= k < i ==> directory[k] == PAGE_WRITE
      {
        directory[i] := 0x0000_0002;
        i := i + 1;
      }
      i := 0;
      while i < MAPPED_TABLES
        invariant 0 <= i <= MAPPED_TABLES
        invariant forall k :: 0 <= k < 1024 ==>
                    directory[k] == if k < i then base + k * PAGE_SIZE + DefaultFlags(k) else PAGE_WRITE
        invariant forall p :: 0 <= p < i * 1024 ==> entries[p] == p * PAGE_SIZE + DefaultFlags(p / 1024)
      {
        var flags: u32 := PAGE_PRESENT + PAGE_WRITE;
        if i == USER_TABLE {
          flags := flags + PAGE_USER;
        }
        FillTable(i, flags);
        directory[i] := base + i * PAGE_SIZE + flags;
        i := i + 1;
      }
    }

    /** The inner loop of `paging_init`. */
    method FillTable(i: int, flags: u32)
      requires Valid() && 0 <= i < MAPPED_TABLES && flags == DefaultFlags(i)
      modifies entries
      ensures forall p :: i * 1024 <= p < i * 1024 + 1024 ==> entries[p] == p * PAGE_SIZE + DefaultFlags(p / 1024)
      ensures forall p :: 0 <= p < i * 1024 ==> entries[p] == old(entries[p])
    {
      var j := 0;
      while j < 1024
        invariant 0 <= j <= 1024
        invariant forall p :: i * 1024 <= p < i * 1024 + j ==> entries[p] == p * PAGE_SIZE + DefaultFlags(p / 1024)
        invariant forall p :: 0 <= p < i * 1024 ==> entries[p] == old(entries[p])
      {
        var phys := (i * 1024 + j) * PAGE_SIZE;
        entries[i * 1024 + j] := phys + flags;
        j := j + 1;
      }
    }

    method MapPage(virt: u32, phys: u32, flags: u32) returns (r: int)
      requires Valid()
      modifies entries
      ensures Valid() && Now() == Map(old(Now()), MapCall(virt, phys, flags))
      ensures r == if virt < MAPPED_PAGES * PAGE_SIZE then 0 else -1
    {
      var dirIndex := virt / 0x40_0000;
      var tableIndex := virt / PAGE_SIZE % 1024;
      if dirIndex >= MAPPED_TABLES {
        return -1;
      }
      entries[dirIndex * 1024 + tableIndex] := PresentEntry(phys, flags);
      return 0;
    }
  }
}
