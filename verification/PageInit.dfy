/** page_init: where the page frame database goes, the kernel's page table, and which frames are listed. */
module PageInit {
  import opened Common
  import opened PMapRegions
  import opened PMapCollapse
  import opened PMapNormal
  import opened PageMap
  import opened Frames
  import PMap
  import PageTree
  import KMem
  import KernelSpace

  const RECORD_SIZE := 32   // sizeof(pf_t)

  /** The size of a database of this many records of 32 bytes, in whole 2 MiB pages. */
  function DatabaseSize(count: nat): (size: nat)
    ensures size % 0x20_0000 == 0 && 32 * count <= size < 32 * count + 0x20_0000
  {
    AlignUpMeaning(count * RECORD_SIZE);
    AlignUp(count * RECORD_SIZE, PAGE_SIZE_LARGE)
  }

  function Own(paddr: nat, count: nat): Region { Region(paddr, DatabaseSize(count), RESERVED, 0) }

  /** A normalised map of whole pages, with room for one more region. */
  ghost predicate Ready(pmap: PMap.PMap)
    reads pmap, pmap.region
  {
    && pmap.Fits() && pmap.initialized && pmap.region.Length > 3 * (pmap.count + 1)
    && Canonical(pmap.Live()) && IsUsableEnd(pmap.Live(), pmap.lastUsable) && AllAligned(pmap.Live())
  }

  lemma SizeAligned(count: nat)
    ensures DatabaseSize(count) % PAGE_SIZE == 0 && (count > 0 ==> DatabaseSize(count) > 0)
  {
    var k := (count * RECORD_SIZE + PAGE_SIZE_LARGE - 1) / PAGE_SIZE_LARGE;
    assert DatabaseSize(count) == PAGE_SIZE * (512 * k);
    Multiple(512 * k);
  }

  lemma Multiple(k: nat)
    ensures (PAGE_SIZE * k) % PAGE_SIZE == 0
  {
  }

  lemma LargeIsAligned(a: nat)
    requires a % PAGE_SIZE_LARGE == 0
    ensures a % PAGE_SIZE == 0
  {
    Multiple(512 * (a / PAGE_SIZE_LARGE));
  }

  lemma SumAligned(a: nat, b: nat)
    requires a % PAGE_SIZE == 0 && b % PAGE_SIZE == 0
    ensures (a + b) % PAGE_SIZE == 0
  {
  }

  /** A map of whole pages is one of whole pages after the database's region is added. */
  lemma AlignedAgain(s: seq<Region>, t: seq<Region>, paddr: nat, count: nat)
    requires AllAligned(s) && Points(t) <= Points(s + [Own(paddr, count)]) && paddr % PAGE_SIZE_LARGE == 0
    ensures AllAligned(t)
  {
    var own := Own(paddr, count);
    SizeAligned(count);
    LargeIsAligned(paddr);
    SumAligned(paddr, DatabaseSize(count));
    forall x | x in Points(s + [own])
      ensures x % PAGE_SIZE == 0
    {
      var r :| r in s + [own] && (x == r.addr || x == r.End());
      assert r in s || r == own;
    }
    forall i | 0 <= i < |t|
      ensures Aligned(t[i])
    {
      assert t[i] in t && t[i].addr in Points(t) && t[i].End() in Points(t);
    }
  }

  /** Before the region is added the map can take it. */
  lemma OwnResolvable(s: seq<Region>, own: Region)
    requires Canonical(s) && own.size > 0 && own.typ >= 1
    ensures Resolvable(s + [own]) && Typed(s)
  {
    NonEmptyHarmless(s + [own]);
    HarmlessResolvable(s + [own]);
  }

  /** What adding the database's region makes of an address: usable memory that is not the database's stays usable. */
  lemma OwnType(s: seq<Region>, t: seq<Region>, paddr: nat, count: nat, x: nat)
    requires IsNormalOf(t, s + [Own(paddr, count)])
    ensures TypeAt(t, x) == USABLE <==> TypeAt(s, x) == USABLE && !Own(paddr, count).Covers(x)
    ensures Own(paddr, count).Covers(x) && TypeAt(s, x) == USABLE ==> TypeAt(t, x) == RESERVED
  {
    var own := Own(paddr, count);
    TypeAtConcat(s, [own], x);
    TypeAtOne(own, x);
  }

  /** So the database has a record for every usable frame, though the end of usable memory may have come down. */
  lemma StillInDatabase(s: seq<Region>, t: seq<Region>, paddr: nat, count: nat, lastUsable: nat)
    requires IsNormalOf(t, s + [Own(paddr, count)]) && IsUsableEnd(s, lastUsable) && count == lastUsable / PAGE_SIZE
    ensures InDatabase(t, count)
  {
    forall i | 0 <= i < |t| && t[i].typ == USABLE
      ensures FrameTo(t[i]) <= count
    {
      var x := t[i].End() - 1;
      TypeAtCovered(t, i, x);
      OwnType(s, t, paddr, count, x);
      FrameOrder(t[i].End(), lastUsable);
    }
  }

  /** The usable frames, but for those of the database itself. */
  ghost predicate ListsUsable(list: seq<nat>, s: seq<Region>, paddr: nat, count: nat) {
    forall p: nat :: p in list <==> TypeAt(s, p * PAGE_SIZE) == USABLE && !Own(paddr, count).Covers(p * PAGE_SIZE)
  }

  lemma UsableListed(s: seq<Region>, t: seq<Region>, paddr: nat, count: nat)
    requires IsNormalOf(t, s + [Own(paddr, count)]) && AllAligned(t)
    ensures ListsUsable(UsableFrames(t, |t|), s, paddr, count)
  {
    forall p: nat
      ensures p in UsableFrames(t, |t|) <==>
        TypeAt(s, p * PAGE_SIZE) == USABLE && !Own(paddr, count).Covers(p * PAGE_SIZE)
    {
      Division(p);
      WholeFrames(t, p * PAGE_SIZE);
      ListedIsUsable(t, p);
      OwnType(s, t, paddr, count, p * PAGE_SIZE);
    }
  }

  lemma Division(p: nat)
    ensures p * PAGE_SIZE / PAGE_SIZE == p
  {
  }

  /** The memory that reserve_region found was usable before. */
  ghost predicate WasUsable(s: seq<Region>, own: Region) {
    forall x :: own.Covers(x) ==> TypeAt(s, x) == USABLE
  }

  lemma FoundUsable(s: seq<Region>, i: nat, paddr: nat, count: nat)
    requires Canonical(s) && i < |s| && FoundIn(s, DatabaseSize(count), i, paddr)
    ensures WasUsable(s, Own(paddr, count))
  {
    CanonicalIsDisjoint(s);
    forall x | Own(paddr, count).Covers(x)
      ensures TypeAt(s, x) == USABLE
    {
      TypeAtCovered(s, i, x);
    }
  }

  /** The map after reserving a block for the database: still of whole pages, with no endpoints of its own. */
  ghost predicate Reserved(pmap: PMap.PMap, s: seq<Region>, paddr: nat, count: nat)
    reads pmap, pmap.region
  {
    && pmap.Fits() && IsNormalOf(pmap.Live(), s + [Own(paddr, count)]) && IsUsableEnd(pmap.Live(), pmap.lastUsable)
    && Points(pmap.Live()) <= Points(s + [Own(paddr, count)]) && AllAligned(pmap.Live())
  }

  method AddOwn(pmap: PMap.PMap, paddr: nat, size: nat, ghost count: nat)
    requires Ready(pmap) && size == DatabaseSize(count) && count > 0 && paddr % PAGE_SIZE_LARGE == 0
    modifies pmap, pmap.region
    ensures Reserved(pmap, old(pmap.Live()), paddr, count)
  {
    ghost var s := pmap.Live();
    SizeAligned(count);
    OwnResolvable(s, Own(paddr, count));
    pmap.Add(paddr, size, RESERVED);
    AlignedAgain(s, pmap.Live(), paddr, count);
  }

  /** There is memory for the database of all frames. */
  ghost predicate HasRoom(s: seq<Region>, lastUsable: nat) {
    lastUsable != 0 && exists i :: 0 <= i < |s| && Holds(s[i], DatabaseSize(lastUsable / PAGE_SIZE))
  }

  /** The part of page_init before kmem_init: counts the frames, and reserves memory for their records. */
  method ReserveDatabase(pmap: PMap.PMap) returns (ok: bool, count: nat, paddr: nat)
    requires Ready(pmap)
    modifies pmap, pmap.region
    ensures count == old(pmap.lastUsable) / PAGE_SIZE
    ensures ok <==> HasRoom(old(pmap.Live()), old(pmap.lastUsable))
    ensures ok ==> Reserved(pmap, old(pmap.Live()), paddr, count) && count > 0
    ensures ok ==> paddr % PAGE_SIZE_LARGE == 0 && WasUsable(old(pmap.Live()), Own(paddr, count))
  {
    count := pmap.lastUsable / PAGE_SIZE;
    if pmap.lastUsable == 0 { return false, count, 0; }
    ok, paddr := FindBlock(pmap, count);
    if ok { AddOwn(pmap, paddr, DatabaseSize(count), count); }
  }

  /** Rounds the database's size up to 2 MiB pages and looks for memory for it. */
  method FindBlock(pmap: PMap.PMap, count: nat) returns (found: bool, paddr: nat)
    requires Ready(pmap) && pmap.lastUsable != 0 && count == pmap.lastUsable / PAGE_SIZE
    ensures found <==> exists i :: 0 <= i < |pmap.Live()| && Holds(pmap.Live()[i], DatabaseSize(count))
    ensures found ==> paddr % PAGE_SIZE_LARGE == 0 && WasUsable(pmap.Live(), Own(paddr, count)) && count > 0
  {
    var size := (count * RECORD_SIZE + PAGE_SIZE_LARGE - 1) / PAGE_SIZE_LARGE * PAGE_SIZE_LARGE;
    found, paddr := ReserveRegion(pmap.region[..pmap.count], size);
    if found {
      ghost var s := pmap.Live();
      ghost var i :| 0 <= i < |s| && FoundIn(s, size, i, paddr);
      FoundUsable(s, i, paddr, count);
      CountPositive(s, pmap.lastUsable);
    }
  }

  /** The end of usable memory lies after a whole page. */
  lemma CountPositive(s: seq<Region>, lastUsable: nat)
    requires Canonical(s) && AllAligned(s) && IsUsableEnd(s, lastUsable) && lastUsable != 0
    ensures lastUsable / PAGE_SIZE > 0
  {
    TypeAtLeast(s, lastUsable - 1);
    var i :| 0 <= i < |s| && TypeIn(s[i], lastUsable - 1) == USABLE;
    AlignedApart(s[i].addr, s[i].End());
    if s[i].End() > lastUsable { TypeAtCovered(s, i, lastUsable); }
  }

  /** page_init after kmem_init: the database lists exactly the frames that were usable, but for its own. */
  method ListFrames(pmap: PMap.PMap, count: nat, ghost s: seq<Region>, ghost paddr: nat, ghost lastUsable: nat)
    returns (db: FrameDb)
    requires Reserved(pmap, s, paddr, count) && IsUsableEnd(s, lastUsable) && count == lastUsable / PAGE_SIZE < INVALID
    ensures fresh(db) && fresh(db.pf) && db.pf.Length == count && db.Valid() && db.avail == |db.list|
    ensures db.View().taken == {}
    ensures ListsUsable(db.list, s, paddr, count) && db.list == UsableFrames(pmap.Live(), pmap.count)
  {
    StillInDatabase(s, pmap.Live(), paddr, count, lastUsable);
    AlignedSpans(pmap.Live());
    UsableListed(s, pmap.Live(), paddr, count);
    db := new FrameDb(count);
    db.Init(pmap.region[..pmap.count]);
  }

  /** No region of the map reaches beyond what four levels of tables can map. */
  ghost predicate WithinLimit(s: seq<Region>) {
    forall i :: 0 <= i < |s| ==> s[i].End() <= PageTree.LIMIT
  }

  lemma FitsAgain(s: seq<Region>, t: seq<Region>, own: Region)
    requires WithinLimit(s) && own.size > 0 && WasUsable(s, own) && AllAligned(t) && Points(t) <= Points(s + [own])
    ensures FitsAll(t)
  {
    assert own.End() <= PageTree.LIMIT by {
      assert own.Covers(own.End() - 1);
      TypeAtLeast(s, own.End() - 1);
    }
    forall i | 0 <= i < |t|
      ensures Fits(t[i])
    {
      assert t[i] in t && t[i].End() in Points(t);
      assert Aligned(t[i]);
      var r :| r in s + [own] && (t[i].End() == r.addr || t[i].End() == r.End());
      assert r in s || r == own;
    }
  }

  /** There is usable memory at or beyond address e. */
  ghost predicate UsableFrom(s: seq<Region>, e: nat) {
    exists x :: x >= e && TypeAt(s, x) == USABLE
  }

  /** Once its own memory is reserved, the database lies wholly below the end of usable memory, or wholly beyond it;
      which of the two, the map tells before the call. */
  lemma DatabaseReached(s: seq<Region>, t: seq<Region>, paddr: nat, count: nat, end: nat)
    requires IsNormalOf(t, s + [Own(paddr, count)]) && IsUsableEnd(t, end) && count > 0
    ensures paddr + DatabaseSize(count) <= end || end <= paddr
    ensures paddr + DatabaseSize(count) <= end <==> UsableFrom(s, paddr + DatabaseSize(count))
  {
    SizeAligned(count);
    if end > 0 { OwnType(s, t, paddr, count, end - 1); }
    if UsableFrom(s, paddr + DatabaseSize(count)) {
      var x :| x >= paddr + DatabaseSize(count) && TypeAt(s, x) == USABLE;
      OwnType(s, t, paddr, count, x);
    }
  }

  /** Whether byte x belongs to the record of one of `count` frames, 32 bytes each, in an array at paddr. */
  predicate InRecord(paddr: nat, count: nat, x: nat) {
    exists p: nat :: p < count && paddr + 32 * p <= x < paddr + 32 * p + 32
  }

  /** Every byte of every record was usable before, is reserved after, and lies in no listed frame. */
  ghost predicate RecordsHeld(s: seq<Region>, t: seq<Region>, list: seq<nat>, paddr: nat, count: nat) {
    forall x: nat :: InRecord(paddr, count, x) ==> TypeAt(s, x) == 1 && TypeAt(t, x) == 2 && x / 0x1000 !in list
  }

  /** A walk of the kernel's page table maps every byte of every record to itself. */
  ghost predicate RecordsMapped(kpt: KMem.KTable, paddr: nat, count: nat)
    requires kpt.entry.Length0 == KMem.TABLE_PAGES && kpt.entry.Length1 == PageTree.SLOTS
    reads kpt, kpt.entry
  {
    forall x: nat :: InRecord(paddr, count, x) ==> kpt.Translate(x).Mapped? && kpt.Translate(x).phys == x
  }

  /** The records fit into the memory reserved for them. */
  lemma RecordInside(paddr: nat, count: nat, x: nat)
    requires InRecord(paddr, count, x)
    ensures Own(paddr, count).Covers(x)
  {
    var p: nat :| p < count && paddr + 32 * p <= x < paddr + 32 * p + 32;
  }

  lemma RecordsAreHeld(s: seq<Region>, t: seq<Region>, list: seq<nat>, paddr: nat, count: nat)
    requires IsNormalOf(t, s + [Own(paddr, count)]) && AllAligned(t) && WasUsable(s, Own(paddr, count))
    requires list == UsableFrames(t, |t|)
    ensures RecordsHeld(s, t, list, paddr, count)
  {
    forall x: nat | InRecord(paddr, count, x)
      ensures TypeAt(s, x) == 1 && TypeAt(t, x) == 2 && x / 0x1000 !in list
    {
      RecordInside(paddr, count, x);
      OwnType(s, t, paddr, count, x);
      WholeFrames(t, x);
      ListedIsUsable(t, x / PAGE_SIZE);
    }
  }

  lemma RecordsAreMapped(kpt: KMem.KTable, s: seq<Region>, t: seq<Region>, end: nat, paddr: nat, count: nat)
    requires kpt.Represents() && Canonical(t) && FitsAll(t) && IsUsableEnd(t, end) && kpt.tree == MapTree(t, |t|, end)
    requires IsNormalOf(t, s + [Own(paddr, count)]) && WasUsable(s, Own(paddr, count))
    requires WithinLimit(s) && UsableFrom(s, paddr + DatabaseSize(count))
    ensures RecordsMapped(kpt, paddr, count)
  {
    forall x: nat | InRecord(paddr, count, x)
      ensures kpt.Translate(x).Mapped? && kpt.Translate(x).phys == x
    {
      RecordInside(paddr, count, x);
      TypeAtLeast(s, x);
      DatabaseMapped(kpt, s, t, end, paddr, count, x);
    }
  }

  /** How page_init ends: stopped for want of memory or tables, by a page fault on the database it clears, or done. */
  datatype Outcome = Stopped | Faulted | Done

  /** page_init up to where it clears the database: its memory is reserved, and the kernel's page table in place. */
  method MapDatabase(pmap: PMap.PMap) returns (ok: bool, count: nat, paddr: nat, kpt: KMem.KTable)
    requires Ready(pmap) && WithinLimit(pmap.Live())
    modifies pmap, pmap.region
    ensures !HasRoom(old(pmap.Live()), old(pmap.lastUsable)) ==> !ok
    ensures ok ==> count == old(pmap.lastUsable) / PAGE_SIZE && count > 0
    ensures ok ==> Reserved(pmap, old(pmap.Live()), paddr, count) && FitsAll(pmap.Live())
    ensures ok ==> WasUsable(old(pmap.Live()), Own(paddr, count))
    ensures ok ==> kpt.Represents() && kpt.tree == MapTree(pmap.Live(), pmap.count, pmap.lastUsable)
  {
    ghost var s := pmap.Live();
    ok, count, paddr := ReserveDatabase(pmap);
    kpt := new KMem.KTable();
    if !ok { return; }
    SizeAligned(count);
    FitsAgain(s, pmap.Live(), Own(paddr, count));
    ok := kpt.Init(pmap.region[..pmap.count], pmap.lastUsable);
  }

  /** All of page_init.  Clearing the database faults exactly when no usable memory lies beyond it. */
  method PageInit(pmap: PMap.PMap) returns (r: Outcome, count: nat, paddr: nat, kpt: KMem.KTable, db: FrameDb)
    requires Ready(pmap) && pmap.lastUsable / PAGE_SIZE < INVALID && WithinLimit(pmap.Live())
    modifies pmap, pmap.region
    ensures !HasRoom(old(pmap.Live()), old(pmap.lastUsable)) ==> r.Stopped?
    ensures !r.Stopped? ==> (r.Done? <==> UsableFrom(old(pmap.Live()), paddr + DatabaseSize(count)))
    ensures !r.Stopped? ==> Reserved(pmap, old(pmap.Live()), paddr, count) && FitsAll(pmap.Live())
    ensures !r.Stopped? ==> WasUsable(old(pmap.Live()), Own(paddr, count)) && count == old(pmap.lastUsable) / PAGE_SIZE
    ensures !r.Stopped? ==> kpt.Represents() && kpt.tree == MapTree(pmap.Live(), pmap.count, pmap.lastUsable)
    ensures r.Done? ==> db.Valid() && db.pf.Length == count && db.avail == |db.list|
    ensures r.Done? ==> ListsUsable(db.list, old(pmap.Live()), paddr, count)
    ensures r.Done? ==> RecordsHeld(old(pmap.Live()), pmap.Live(), db.list, paddr, count)
    ensures r.Done? ==> RecordsMapped(kpt, paddr, count)
  {
    ghost var s, lastUsable := pmap.Live(), pmap.lastUsable;
    var ok;
    ok, count, paddr, kpt := MapDatabase(pmap);
    db := new FrameDb(0);
    if !ok { return Stopped, count, paddr, kpt, db; }
    DatabaseReached(s, pmap.Live(), paddr, count, pmap.lastUsable);
    if paddr + DatabaseSize(count) > pmap.lastUsable { return Faulted, count, paddr, kpt, db; }
    RecordsAreMapped(kpt, s, pmap.Live(), pmap.lastUsable, paddr, count);
    db := ListFrames(pmap, count, s, paddr, lastUsable);
    RecordsAreHeld(s, pmap.Live(), db.list, paddr, count);
    r := Done;
  }

  /** The kernel's page table maps the whole database, to its own addresses, if there is usable memory beyond it, and
      otherwise no address of it. */
  lemma DatabaseMapped(kpt: KMem.KTable, s: seq<Region>, t: seq<Region>, end: nat, paddr: nat, count: nat, x: nat)
    requires kpt.Represents() && Canonical(t) && FitsAll(t) && IsUsableEnd(t, end) && kpt.tree == MapTree(t, |t|, end)
    requires IsNormalOf(t, s + [Own(paddr, count)]) && WasUsable(s, Own(paddr, count)) && Own(paddr, count).Covers(x)
    requires x < PageTree.LIMIT && count > 0
    ensures kpt.Translate(x).Mapped? <==> UsableFrom(s, paddr + DatabaseSize(count))
    ensures kpt.Translate(x).Mapped? ==> kpt.Translate(x).phys == x
  {
    OwnType(s, t, paddr, count, x);
    DatabaseReached(s, t, paddr, count, end);
    kpt.IdentityMap(t, end, x);
  }

  // ----- A machine on which it faults -----

  /** The map of a machine with 12 MiB of memory, after pmap_init. */
  function SmallMap(): seq<Region> {
    [Region(0, 0x1000, PMap.UNMAPPED, 0), Region(0x1000, 0x9f000, RESERVED, 0),
     Region(PMap.KMEM_VIDEO, PMap.KMEM_VIDEO_SIZE, PMap.UNCACHED, 0), Region(0xc0000, 0x940000, RESERVED, 0),
     Region(PMap.KMEM_KERNEL_IMAGE_END, 0x200000, USABLE, 0)]
  }

  const SMALL_END := 0xc00000

  lemma TypeAtRest(s: seq<Region>, x: int)
    requires s != []
    ensures TypeAt(s, x) == Max(TypeIn(s[0], x), TypeAt(s[1..], x))
  {
  }

  lemma SmallType(x: int)
    ensures TypeAt(SmallMap(), x) ==
      if x < 0 || x >= SMALL_END then 0
      else if x < 0x1000 then PMap.UNMAPPED
      else if x < PMap.KMEM_VIDEO || 0xc0000 <= x < PMap.KMEM_KERNEL_IMAGE_END then RESERVED
      else if x < 0xc0000 then PMap.UNCACHED
      else USABLE
  {
    var s := SmallMap();
    TypeAtRest(s, x);
    TypeAtRest(s[1..], x);
    TypeAtRest(s[1..][1..], x);
    TypeAtRest(s[1..][1..][1..], x);
    TypeAtRest(s[1..][1..][1..][1..], x);
  }

  lemma BootType(x: int)
    ensures TypeAt([Region(0, SMALL_END, USABLE, 0)] + PMap.KernelRegions(), x) == TypeAt(SmallMap(), x)
    ensures TypeAt(SmallMap(), x) > 0 <==> 0 <= x < SMALL_END
  {
    var boot, k := [Region(0, SMALL_END, USABLE, 0)], PMap.KernelRegions();
    TypeAtConcat(boot, k, x);
    TypeAtOne(boot[0], x);
    TypeAtRest(k, x);
    TypeAtRest(k[1..], x);
    TypeAtRest(k[1..][1..], x);
    SmallType(x);
  }

  lemma SmallBetween(boot: seq<Region>, x: int)
    requires boot == [Region(0, SMALL_END, USABLE, 0)] + PMap.KernelRegions() && Between(boot, x)
    ensures 0 <= x < SMALL_END
  {
    var y :| y <= x && TypeAt(boot, y) > 0;
    var z :| x <= z && TypeAt(boot, z) > 0;
    BootType(y);
    BootType(z);
  }

  lemma SmallIsNormal()
    ensures IsNormalOf(SmallMap(), [Region(0, SMALL_END, USABLE, 0)] + PMap.KernelRegions())
    ensures IsUsableEnd(SmallMap(), SMALL_END) && AllAligned(SmallMap())
  {
    var boot := [Region(0, SMALL_END, USABLE, 0)] + PMap.KernelRegions();
    forall x
      ensures TypeAt(SmallMap(), x) == NormalType(boot, x)
      ensures TypeAt(SmallMap(), x) == USABLE ==> x < SMALL_END
    {
      SmallType(x);
      BootType(x);
      if Between(boot, x) { SmallBetween(boot, x); }
    }
    SmallType(SMALL_END - 1);
  }

  /** On a machine with 12 MiB the database takes all usable memory, and none of it is mapped: page_init faults. */
  lemma SmallMachineFaults(i: nat, paddr: nat, t: seq<Region>, end: nat)
    requires var s, count := SmallMap(), SMALL_END / PAGE_SIZE;
      && i < |s| && FoundIn(s, DatabaseSize(count), i, paddr) && paddr % PAGE_SIZE_LARGE == 0
      && IsNormalOf(t, s + [Own(paddr, count)]) && IsUsableEnd(t, end)
    ensures IsNormalOf(SmallMap(), [Region(0, SMALL_END, USABLE, 0)] + PMap.KernelRegions())
    ensures HasRoom(SmallMap(), SMALL_END) && paddr == PMap.KMEM_KERNEL_IMAGE_END && end == 0
    ensures !UsableFrom(SmallMap(), paddr + DatabaseSize(SMALL_END / PAGE_SIZE))
  {
    var s, count := SmallMap(), SMALL_END / PAGE_SIZE;
    SmallIsNormal();
    assert DatabaseSize(count) == PAGE_SIZE_LARGE;
    assert i == 4 && paddr == PMap.KMEM_KERNEL_IMAGE_END;
    DatabaseReached(s, t, paddr, count, end);
    if end > 0 {
      OwnType(s, t, paddr, count, end - 1);
      SmallType(end - 1);
    }
  }

  /** The kernel's memory, which the memory map reserves, is not among the frames listed. */
  lemma KernelKept(list: seq<nat>, s: seq<Region>, paddr: nat, count: nat, p: nat)
    requires ListsUsable(list, s, paddr, count) && p in list
    requires forall x :: 0 <= x < KernelSpace.KERNEL_END * PAGE_SIZE ==> TypeAt(s, x) != USABLE
    ensures p >= KernelSpace.KERNEL_END == 0xa00
  {
    assert TypeAt(s, p * PAGE_SIZE) == USABLE;
  }

  /** pmap_init reserves it, and more: page 0 is not mapped, and the video memory is not cached. */
  lemma KernelReserved(s: seq<Region>, t: seq<Region>, x: nat)
    requires IsNormalOf(t, s + PMap.KernelRegions()) && x < 0xa0_0000
    ensures TypeAt(t, x) == Max(TypeAt(s, x), if x < 0x1000 then 7 else if 0xa_0000 <= x < 0xc_0000 then 6 else 2)
    ensures TypeAt(t, x) != USABLE
  {
    var k := PMap.KernelRegions();
    TypeAtConcat(s, k, x);
    TypeAtRest(k, x);
    TypeAtRest(k[1..], x);
    TypeAtRest(k[1..][1..], x);
  }
}
