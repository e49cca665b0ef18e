/** The kernel's page table: an identity map of physical memory, built from the memory map. */
module KMem {
  import opened Common
  import opened PageTree
  import opened PageTiling
  import opened PMapRegions
  import opened PMapNormal
  import opened PageMap

  const KMEM_KERNEL_PAGETABLE := 0x2_0000
  const TABLE_PAGES := 80                 // from KMEM_KERNEL_PAGETABLE to its end
  const PGMASK := 0x400                   // PGMASK_OFFSET + 1

  // PF_PRESENT, PF_RW, PF_PWT, PF_PCD, PF_PS, PF_GLOBAL, PF_SYSTEM
  const TABLE_FLAGS := 0x1 + 0x2 + 0x200
  const PAGE_FLAGS := 0x1 + 0x2 + 0x100 + 0x200
  const UNCACHED_FLAGS := 0x8 + 0x10
  const PS_FLAG := 0x80

  /** The flags of a leaf entry: present, global, system and writable, uncached for device memory. */
  function LeafFlags(level: nat, typ: int): nat {
    if typ == BAD || typ == UNMAPPED || !KnownType(typ) then 0
    else PAGE_FLAGS + (if typ == ACPI_NVS || typ == UNCACHED then UNCACHED_FLAGS else 0)
         + (if level > 1 then PS_FLAG else 0)
  }

  /** Bit by bit what the entry of a page says (section 4.5 of the Intel SDM, Volume 3A): present, writable, for the
      supervisor only; written through and uncached exactly for memory of types 4 and 6; not yet accessed or written;
      a large page above the lowest level; global; and with the kernel's own mark. */
  predicate PageBits(flags: nat, typ: int, level: nat) {
    && flags % 2 == 1 && flags / 0x2 % 2 == 1 && flags / 0x4 % 2 == 0
    && (flags / 0x8 % 2 == 1 <==> typ == 4 || typ == 6) && (flags / 0x10 % 2 == 1 <==> typ == 4 || typ == 6)
    && flags / 0x20 % 2 == 0 && flags / 0x40 % 2 == 0 && (flags / 0x80 % 2 == 1 <==> level > 1)
    && flags / 0x100 % 2 == 1 && flags / 0x200 % 2 == 1 && flags < 0x400
  }

  /** The flags of leaves, bit by bit; none for memory of types 5 and 7, which are not present. */
  lemma LeafBits(level: nat, typ: int)
    requires 1 <= typ <= 7
    ensures if typ == 5 || typ == 7 then LeafFlags(level, typ) == 0 else PageBits(LeafFlags(level, typ), typ, level)
  {
  }

  /** What a page walk makes of an address (section 4.5 of the Intel SDM, Volume 3A). */
  datatype Translation = NotPresent | Mapped(phys: nat, level: nat, flags: nat)

  /** The entry that represents a node of the tree, where pages says which page holds which table. */
  ghost function Encoded(tree: Tree, pages: map<Node, nat>, n: Node): nat {
    if n !in tree then 0
    else match tree[n]
      case Leaf(typ) => n.First() + LeafFlags(n.level, typ)
      case Table => KMEM_KERNEL_PAGETABLE + (if n in pages then pages[n] else 0) * PAGE_SIZE + TABLE_FLAGS
  }

  /** One page for each table of the tree and for the root, all of them among the first `used`. */
  ghost predicate Placed(tree: Tree, pages: map<Node, nat>, used: nat) {
    && used <= TABLE_PAGES && ROOT in pages && pages[ROOT] == 0
    && (forall n :: n in pages <==> n == ROOT || (n in tree && tree[n].Table?))
    && (forall n :: n in pages ==> pages[n] < used && 2 <= n.level <= 5)
    && (forall n, m :: n in pages && m in pages && pages[n] == pages[m] ==> n == m)
  }

  lemma PlaceTable(tree: Tree, pages: map<Node, nat>, used: nat, c: Node)
    requires Placed(tree, pages, used) && Closed(tree) && used < TABLE_PAGES
    requires c !in tree && 2 <= c.level <= 4
    ensures Placed(tree[c := Table], pages[c := used], used + 1)
    ensures forall x :: x != c ==> Encoded(tree[c := Table], pages[c := used], x) == Encoded(tree, pages, x)
    ensures forall e | 0 <= e < SLOTS :: Encoded(tree, pages, Child(c, e)) == 0
  {
    forall e | 0 <= e < SLOTS
      ensures Child(c, e) !in tree
    {
      ChildParent(c, e);
    }
  }

  class KTable {
    const entry: array2<nat>      // the table pages, from KMEM_KERNEL_PAGETABLE on
    var vnext: nat                // address of the next unused table page
    ghost var tree: Tree
    ghost var pages: map<Node, nat>
    ghost var used: nat

    constructor ()
      ensures entry.Length0 == TABLE_PAGES && entry.Length1 == SLOTS && fresh(entry)
    {
      entry := new nat[TABLE_PAGES, SLOTS];
    }

    /** Every entry of a table's page is what its node of the tree makes it. */
    ghost predicate Entries(tree: Tree, pages: map<Node, nat>, used: nat)
      requires entry.Length0 == TABLE_PAGES && entry.Length1 == SLOTS && Placed(tree, pages, used)
      reads entry
    {
      && (forall n, e :: n in pages && 0 <= e < SLOTS ==> entry[pages[n], e] == Encoded(tree, pages, Child(n, e)))
      && (forall p, e :: used <= p < TABLE_PAGES && 0 <= e < SLOTS ==> entry[p, e] == 0)
    }

    /** The pages represent the tree. */
    ghost predicate Represents()
      reads this, entry
    {
      && entry.Length0 == TABLE_PAGES && entry.Length1 == SLOTS
      && vnext == KMEM_KERNEL_PAGETABLE + used * PAGE_SIZE
      && Placed(tree, pages, used) && Entries(tree, pages, used) && Closed(tree)
    }

    /** Takes the next page for a table; fails if none is left. */
    method AllocPage() returns (ok: bool, pte: nat)
      requires vnext == KMEM_KERNEL_PAGETABLE + used * PAGE_SIZE && used <= TABLE_PAGES
      modifies this`vnext, this`used
      ensures !ok ==> used == TABLE_PAGES
      ensures ok ==> old(used) < TABLE_PAGES && pte == old(vnext) + TABLE_FLAGS && used == old(used) + 1
      ensures vnext == KMEM_KERNEL_PAGETABLE + used * PAGE_SIZE
    {
      if vnext >= KMEM_KERNEL_PAGETABLE + TABLE_PAGES * PAGE_SIZE { return false, 0; }
      pte := vnext + TABLE_FLAGS;
      vnext := vnext + PAGE_SIZE;
      used := used + 1;
      ok := true;
    }

    /** Fills an empty slot with a new table. */
    method AddTable(p: nat, e: nat, ghost n: Node) returns (ok: bool)
      requires Represents() && n in pages && pages[n] == p && e < SLOTS && n.level >= 3
      requires Child(n, e) !in tree && Child(n, e).End() <= LIMIT
      modifies this, entry
      ensures !ok ==> used == TABLE_PAGES
      ensures ok ==>
        && Represents()
        && tree == old(tree)[Child(n, e) := Table] && pages == old(pages)[Child(n, e) := old(used)]
    {
      ghost var c := Child(n, e);
      ClosedAdd(tree, n, e, Table);
      var pte;
      ok, pte := AllocPage();
      if !ok { return; }
      PlaceTable(tree, pages, old(used), c);
      entry[p, e] := pte;
      ghost var pages' := pages[c := old(used)];
      ghost var tree' := tree[c := Table];
      forall m, f | m in pages' && 0 <= f < SLOTS
        ensures entry[pages'[m], f] == Encoded(tree', pages', Child(m, f))
      {
        if m == c {
        } else if m == n && f == e {
        } else {
          if Child(m, f) == c { ChildInjective(m, f, n, e); }
        }
      }
      pages := pages';
      tree := tree';
    }

    /** PGPTR: the page an entry points to, as an index into the table pages. */
    function PagePointer(pte: nat): nat
      requires pte >= KMEM_KERNEL_PAGETABLE
    {
      (pte - pte % PGMASK - KMEM_KERNEL_PAGETABLE) / PAGE_SIZE
    }

    /** The table under slot e of the table at page p, created if the slot is empty. */
    method Descend(p: nat, e: nat, ghost n: Node, ghost c: Node) returns (ok: bool, q: nat)
      requires Represents() && n in pages && pages[n] == p && e < SLOTS && n.level >= 3 && c == Child(n, e)
      requires c in tree ==> tree[c].Table?
      requires c.End() <= LIMIT
      modifies this, entry
      ensures !ok ==> used == TABLE_PAGES
      ensures ok ==> Represents() && c in pages && q == pages[c]
      ensures ok ==> tree == if c in old(tree) then old(tree) else old(tree)[c := Table]
    {
      assert entry[p, e] == Encoded(tree, pages, c);
      if entry[p, e] == 0 {
        ok := AddTable(p, e, n);
        if !ok { return false, 0; }
      }
      ok := true;
      assert entry[p, e] == Encoded(tree, pages, c);
      PointerOf(pages[c]);
      q := PagePointer(entry[p, e]);
    }

    /** PGPTR undoes what alloc_page puts into an entry. */
    lemma PointerOf(q: nat)
      ensures PagePointer(KMEM_KERNEL_PAGETABLE + q * PAGE_SIZE + TABLE_FLAGS) == q
    {
    }

    /** Fills an empty slot with a leaf. */
    method SetLeaf(p: nat, e: nat, pte: nat, ghost n: Node, ghost typ: int)
      requires Represents() && n in pages && pages[n] == p && e < SLOTS && 2 <= n.level <= 4
      requires Child(n, e) !in tree && Child(n, e).End() <= LIMIT
      requires pte == Child(n, e).First() + LeafFlags(n.level - 1, typ)
      modifies this`tree, entry
      ensures Represents() && tree == old(tree)[Child(n, e) := Leaf(typ)]
    {
      ghost var c := Child(n, e);
      ClosedAdd(tree, n, e, Leaf(typ));
      entry[p, e] := pte;
      ghost var tree' := tree[c := Leaf(typ)];
      forall m, f | m in pages && 0 <= f < SLOTS
        ensures entry[pages[m], f] == Encoded(tree', pages, Child(m, f))
      {
        if Child(m, f) == c { ChildInjective(m, f, n, e); }
      }
      tree := tree';
    }

    /** The flags for leaf entries in the two middle levels; fails for a type it does not know. */
    method GetPdFlags(typ: int) returns (ok: bool, flags: nat)
      ensures ok <==> 1 <= typ <= 7
      ensures ok ==> if typ == 5 || typ == 7 then flags == 0 else PageBits(flags, typ, 2)
      ensures ok ==> forall level :: 2 <= level ==> flags == LeafFlags(level, typ)
    {
      if 1 <= typ <= 7 { LeafBits(2, typ); }
      if typ == ACPI_NVS || typ == UNCACHED {
        return true, 0x1 + 0x100 + 0x200 + 0x2 + 0x80 + 0x8 + 0x10;
      } else if typ == BAD || typ == UNMAPPED {
        return true, 0;
      } else if typ == USABLE || typ == RESERVED || typ == ACPI {
        return true, 0x1 + 0x100 + 0x200 + 0x2 + 0x80;
      }
      return false, 0;
    }

    /** The flags for entries in the lowest level. */
    method GetPtFlags(typ: int) returns (ok: bool, flags: nat)
      ensures ok <==> 1 <= typ <= 7
      ensures ok ==> if typ == 5 || typ == 7 then flags == 0 else PageBits(flags, typ, 1)
      ensures ok ==> flags == LeafFlags(1, typ)
    {
      if 1 <= typ <= 7 { LeafBits(1, typ); }
      if typ == ACPI_NVS || typ == UNCACHED {
        return true, 0x1 + 0x100 + 0x200 + 0x2 + 0x8 + 0x10;
      } else if typ == BAD || typ == UNMAPPED {
        return true, 0;
      } else if typ == USABLE || typ == RESERVED || typ == ACPI {
        return true, 0x1 + 0x100 + 0x200 + 0x2;
      }
      return false, 0;
    }

    /** Maps a 1 GiB page. */
    method CreateHugePage(addr: nat, typ: int) returns (ok: bool)
      requires Represents() && Free(tree, addr, 3)
      modifies this, entry
      ensures ok ==> Represents() && tree == WithPage(old(tree), addr, 3, typ)
      ensures !ok ==> used == TABLE_PAGES || !KnownType(typ)
    {
      ghost var t := tree;
      var pml4te, pdpte := Over(addr, 4) % SLOTS, Over(addr, 3) % SLOTS;
      var pdpt, flags;
      PathFacts(t, addr, 3, 4);
      PathFacts(t, addr, 3, 3);
      ok, pdpt := Descend(0, pml4te, ROOT, At(addr, 4));
      if !ok { return; }
      ok, flags := GetPdFlags(typ);
      if !ok { return; }
      SetLeaf(pdpt, pdpte, addr + flags, At(addr, 4), typ);
      TablesStep(t, addr, 4, 3);
    }

    /** The entries over address a, down to level l, are tables or empty. */
    ghost predicate Open(t: Tree, a: nat, l: nat)
      requires 1 <= l <= 4
    {
      && (At(a, l) !in t || t[At(a, l)].Table?) && At(a, l).End() <= LIMIT
      && Child(if l == 4 then ROOT else At(a, l + 1), Over(a, l) % SLOTS) == At(a, l)
    }

    /** The page directory over an address, found or created. */
    method Directory(addr: nat) returns (ok: bool, pdt: nat)
      requires Represents() && Open(tree, addr, 4) && Open(tree, addr, 3)
      modifies this, entry
      ensures !ok ==> used == TABLE_PAGES
      ensures ok ==> Represents() && tree == WithTables(old(tree), addr, 4, 2)
      ensures ok ==> At(addr, 3) in pages && pages[At(addr, 3)] == pdt
    {
      ghost var t := tree;
      var pml4te, pdpte := Over(addr, 4) % SLOTS, Over(addr, 3) % SLOTS;
      var pdpt;
      ok, pdpt := Descend(0, pml4te, ROOT, At(addr, 4));
      if !ok { return false, 0; }
      ghost var t4 := tree;
      ok, pdt := Descend(pdpt, pdpte, At(addr, 4), At(addr, 3));
      TablesStep(t, addr, 4, 2);
      TablesStep(t4, addr, 3, 2);
    }

    /** The lowest table over an address, found or created. */
    method LowestTable(addr: nat) returns (ok: bool, ptt: nat)
      requires Represents() && Open(tree, addr, 4) && Open(tree, addr, 3) && Open(tree, addr, 2)
      modifies this, entry
      ensures !ok ==> used == TABLE_PAGES
      ensures ok ==> Represents() && tree == WithTables(old(tree), addr, 4, 1)
      ensures ok ==> At(addr, 2) in pages && pages[At(addr, 2)] == ptt
    {
      ghost var t := tree;
      var pde := Over(addr, 2) % SLOTS;
      var pdt;
      ok, pdt := Directory(addr);
      if !ok { return false, 0; }
      ghost var t3 := tree;
      DirectoryOpens(t, t3, addr);
      ok, ptt := Descend(pdt, pde, At(addr, 3), At(addr, 2));
    }

    /** The tables down to the page directory, and then one more. */
    lemma DirectoryOpens(t: Tree, t3: Tree, addr: nat)
      requires t3 == WithTables(t, addr, 4, 2)
      ensures At(addr, 2) in t3 <==> At(addr, 2) in t
      ensures At(addr, 2) in t ==> t3[At(addr, 2)] == t[At(addr, 2)]
      ensures WithTables(t, addr, 4, 1) == if At(addr, 2) in t3 then t3 else t3[At(addr, 2) := Table]
    {
      var t4 := if At(addr, 4) in t then t else t[At(addr, 4) := Table];
      TablesStep(t, addr, 4, 1);
      TablesStep(t, addr, 4, 2);
      TablesStep(t4, addr, 3, 1);
      TablesStep(t4, addr, 3, 2);
      TablesStep(t3, addr, 2, 1);
    }

    /** Maps a 2 MiB page. */
    method CreateLargePage(addr: nat, typ: int) returns (ok: bool)
      requires Represents() && Free(tree, addr, 2)
      modifies this, entry
      ensures ok ==> Represents() && tree == WithPage(old(tree), addr, 2, typ)
      ensures !ok ==> used == TABLE_PAGES || !KnownType(typ)
    {
      PathFacts(tree, addr, 2, 4);
      PathFacts(tree, addr, 2, 3);
      PathFacts(tree, addr, 2, 2);
      TablesOnly(tree, addr, 2);
      var pdt, flags;
      ok, pdt := Directory(addr);
      if !ok { return; }
      ok, flags := GetPdFlags(typ);
      if !ok { return; }
      var pde := Over(addr, 2) % SLOTS;
      SetLeaf(pdt, pde, addr + flags, At(addr, 3), typ);
    }

    /** Maps a 4 KiB page. */
    method CreateSmallPage(addr: nat, typ: int) returns (ok: bool)
      requires Represents() && Free(tree, addr, 1)
      modifies this, entry
      ensures ok ==> Represents() && tree == WithPage(old(tree), addr, 1, typ)
      ensures !ok ==> used == TABLE_PAGES || !KnownType(typ)
    {
      PathFacts(tree, addr, 1, 4);
      PathFacts(tree, addr, 1, 3);
      PathFacts(tree, addr, 1, 2);
      PathFacts(tree, addr, 1, 1);
      TablesOnly(tree, addr, 1);
      var ptt, flags;
      ok, ptt := LowestTable(addr);
      if !ok { return; }
      ok, flags := GetPtFlags(typ);
      if !ok { return; }
      var pte := Over(addr, 1) % SLOTS;
      SetLeaf(ptt, pte, addr + flags, At(addr, 2), typ);
    }

    /** Making tables over a free page leaves the page's own slot empty. */
    lemma TablesOnly(t: Tree, a: nat, level: nat)
      requires Free(t, a, level)
      ensures At(a, level) !in WithTables(t, a, 4, level)
    {
      TablesExtend(t, a, 4, level);
      FreeSlots(t, a, level, level);
    }

    /** What creating a page needs to know about the path to it. */
    lemma PathFacts(t: Tree, a: nat, level: nat, l: nat)
      requires Free(t, a, level) && level <= l <= 4
      ensures l > level ==> At(a, l) !in t || t[At(a, l)].Table?
      ensures l == level ==> At(a, l) !in t && At(a, l).First() == a
      ensures At(a, l).End() <= LIMIT && Over(a, l) % SLOTS < SLOTS
      ensures Child(if l == 4 then ROOT else At(a, l + 1), Over(a, l) % SLOTS) == At(a, l)
    {
      FreeSlots(t, a, level, l);
      AtLimit(a, l);
      ChildAt(a, l);
      if l == level { AtAligned(a, level); }
    }

    lemma TablesStep(t: Tree, a: nat, from: nat, level: nat)
      requires level < from <= 4
      ensures WithTables(t, a, from, level) ==
        WithTables(if At(a, from) in t then t else t[At(a, from) := Table], a, from - 1, level)
    {
    }

    /** A page walk by the processor, from the table at page p, whose entries are of this level. */
    ghost function WalkEntries(p: nat, a: nat, level: nat): Translation
      requires entry.Length0 == TABLE_PAGES && entry.Length1 == SLOTS && p < TABLE_PAGES && 1 <= level <= 4
      reads entry
      decreases level
    {
      match Decode(entry[p, Over(a, level) % SLOTS], level)
      case Absent => NotPresent
      case Frame(base, flags) => Mapped(base + Rem(a, level), level, flags)
      case Pointer(q) => if level == 1 || q >= TABLE_PAGES then NotPresent else WalkEntries(q, a, level - 1)
    }

    ghost function Translate(a: nat): Translation
      requires entry.Length0 == TABLE_PAGES && entry.Length1 == SLOTS
      reads entry
    {
      WalkEntries(0, a, 4)
    }

    /** The processor's walk of the pages finds what the tree says. */
    lemma {:induction false} WalkAgrees(n: Node, a: nat, level: nat)
      requires Represents() && a < LIMIT && 1 <= level <= 4
      requires n in pages && n == if level == 4 then ROOT else At(a, level + 1)
      ensures WalkEntries(pages[n], a, level) == Seen(WalkFrom(tree, a, level), a)
      decreases level
    {
      ChildAt(a, level);
      var c := At(a, level);
      DecodeEncoded(tree, pages, used, a, level);
      if c in tree && tree[c].Table? {
        WalkAgrees(c, a, level - 1);
      }
    }

    /** Every entry that a walk for this address reads, from the table at page p on, allows writing. */
    ghost predicate WritablePath(p: nat, a: nat, level: nat)
      requires entry.Length0 == TABLE_PAGES && entry.Length1 == SLOTS && p < TABLE_PAGES && 1 <= level <= 4
      reads entry
      decreases level
    {
      var e := entry[p, Over(a, level) % SLOTS];
      && e / 0x2 % 2 == 1
      && match Decode(e, level)
         case Pointer(q) => level > 1 && q < TABLE_PAGES && WritablePath(q, a, level - 1)
         case _ => true
    }

    /** The entry over an address, as the tree and the processor have it. */
    lemma EntryOver(n: Node, a: nat, level: nat)
      requires Represents() && a < LIMIT && 1 <= level <= 4
      requires n in pages && n == if level == 4 then ROOT else At(a, level + 1)
      ensures pages[n] < TABLE_PAGES && Over(a, level) % SLOTS < SLOTS
      ensures var e, c := entry[pages[n], Over(a, level) % SLOTS], At(a, level);
        && e == Encoded(tree, pages, c)
        && (c in tree && tree[c].Table? ==>
            c in pages && level > 1 && pages[c] < TABLE_PAGES && Decode(e, level) == Pointer(pages[c]))
        && (c in tree && tree[c].Leaf? && Mappable(tree[c].typ) ==> Decode(e, level).Frame?)
    {
      ChildAt(a, level);
      DecodeEncoded(tree, pages, used, a, level);
    }

    /** The tables on the way to a page allow writing, and so does the page's own entry. */
    lemma {:induction false} PathWritable(n: Node, a: nat, level: nat)
      requires Represents() && a < LIMIT && 1 <= level <= 4
      requires n in pages && n == if level == 4 then ROOT else At(a, level + 1)
      requires var found := WalkFrom(tree, a, level); found.Page? && Mappable(found.typ)
      ensures pages[n] < TABLE_PAGES && WritablePath(pages[n], a, level)
      decreases level
    {
      EntryOver(n, a, level);
      var c := At(a, level);
      if tree[c].Table? {
        TableWritable(pages[c]);
        PathWritable(c, a, level - 1);
      } else {
        LeafWritable(a, level, tree[c].typ);
      }
    }

    /** Maps the largest page that is aligned at addr and fits before term. */
    method CreatePage(addr: nat, term: nat, typ: int) returns (ok: bool, size: nat)
      requires Represents() && addr < term && Free(tree, addr, PageLevel(addr, term))
      modifies this, entry
      ensures !ok ==> used == TABLE_PAGES || !KnownType(typ)
      ensures ok ==> Represents() && tree == WithPage(old(tree), addr, PageLevel(addr, term), typ)
      ensures size == Size(PageLevel(addr, term))
    {
      var remain := term - addr;
      if Rem(addr, 3) == 0 && remain >= Size(3) {
        ok := CreateHugePage(addr, typ);
        size := Size(3);
      } else if Rem(addr, 2) == 0 && remain >= Size(2) {
        ok := CreateLargePage(addr, typ);
        size := Size(2);
      } else {
        ok := CreateSmallPage(addr, typ);
        size := PAGE_SIZE;
      }
    }

    /** Maps the addresses lo..term with the largest pages possible. */
    method MapPages(lo: nat, term: nat, typ: int) returns (ok: bool)
      requires Represents() && Ready(tree, lo) && PageAligned(lo) && PageAligned(term) && lo <= term <= LIMIT
      modifies this, entry
      ensures !ok ==> used == TABLE_PAGES || !KnownType(typ)
      ensures ok ==> Represents() && tree == WithRegion(old(tree), lo, term, typ)
    {
      ghost var t := tree;
      var addr := lo;
      while addr < term
        invariant lo <= addr <= term && PageAligned(addr)
        invariant Represents() && Ready(tree, addr)
        invariant WithRegion(tree, addr, term, typ) == WithRegion(t, lo, term, typ)
        decreases term - addr
      {
        PageFits(addr, term);
        PageReady(tree, addr, term, typ);
        var size;
        ok, size := CreatePage(addr, term, typ);
        if !ok { return; }
        addr := addr + size;
      }
      ok := true;
    }

    /** Maps a region, unless its memory must not be mapped. */
    method MapRegion(region: Region, lastUsable: nat) returns (ok: bool)
      requires Represents() && Ready(tree, region.addr) && Fits(region)
      modifies this, entry
      ensures !ok ==> used == TABLE_PAGES || !KnownType(region.typ)
      ensures ok ==> Represents() && tree == WithRegionOf(old(tree), region, lastUsable)
    {
      RegionMapped(tree, region, lastUsable);
      if region.typ == UNMAPPED || region.typ == BAD { return true; }
      if region.typ == RESERVED && region.addr >= lastUsable { return true; }
      var term := region.addr + region.size;
      assert term == region.End();
      ok := MapPages(region.addr, term, region.typ);
    }

    /** Zeroes all table pages and makes the first one the root. */
    method Clear()
      requires entry.Length0 == TABLE_PAGES && entry.Length1 == SLOTS
      modifies this, entry
      ensures Represents() && tree == map[] && used == 1
    {
      forall p, e | 0 <= p < entry.Length0 && 0 <= e < entry.Length1 {
        entry[p, e] := 0;
      }
      vnext := KMEM_KERNEL_PAGETABLE + PAGE_SIZE;
      tree, pages, used := map[], map[ROOT := 0], 1;
    }

    /** kmem_init: maps the regions of a normalised memory map. */
    method Init(s: seq<Region>, lastUsable: nat) returns (ok: bool)
      requires entry.Length0 == TABLE_PAGES && entry.Length1 == SLOTS
      requires Canonical(s) && FitsAll(s)
      modifies this, entry
      ensures ok ==> Represents() && tree == MapTree(s, |s|, lastUsable)
      ensures !ok ==> used == TABLE_PAGES || exists i :: 0 <= i < |s| && !KnownType(s[i].typ)
    {
      Clear();
      var r := 0;
      while r < |s|
        invariant r <= |s| && Represents() && tree == MapTree(s, r, lastUsable)
      {
        MapReady(s, r, lastUsable);
        ok := MapRegion(s[r], lastUsable);
        if !ok { return; }
        r := r + 1;
      }
      ok := true;
    }

    /** After kmem_init the page table is an exact identity map of the memory that is to be mapped, with the flags of
        its type at the page size of its region's tiling; every other address is not present. */
    lemma IdentityMap(s: seq<Region>, lastUsable: nat, x: nat)
      requires Represents() && Canonical(s) && FitsAll(s) && IsUsableEnd(s, lastUsable) && x < LIMIT
      requires tree == MapTree(s, |s|, lastUsable)
      ensures var typ := TypeAt(s, x);
        if Visible(typ, lastUsable, x) then
          Translate(x).Mapped? && Translate(x).phys == x && Translate(x).flags == LeafFlags(Translate(x).level, typ)
        else Translate(x).NotPresent?
      ensures var typ := TypeAt(s, x);
        Translate(x).Mapped? <==> typ in {1, 3, 4, 6} || (typ == 2 && x < lastUsable)
      ensures Translate(x).Mapped? ==>
        && Translate(x).phys == x && PageBits(Translate(x).flags, TypeAt(s, x), Translate(x).level)
        && WritablePath(0, x, 4)
      ensures forall i | 0 <= i < |s| && s[i].Covers(x) && Visible(s[i].typ, lastUsable, x) ::
        Translate(x).Mapped? && Translate(x).level == TileLevel(s[i].addr, s[i].End(), x)
    {
      WalkAgrees(ROOT, x, 4);
      MapTreeWalk(s, lastUsable, x, 4);
      var typ := TypeAt(s, x);
      if Visible(typ, lastUsable, x) {
        LeafBits(Translate(x).level, typ);
        PathWritable(ROOT, x, 4);
      }
    }
  }

  /** What the processor reads from one entry: nothing, the frame of a page, or the page of a table. */
  datatype Entry = Absent | Frame(base: nat, flags: nat) | Pointer(page: nat)

  /** Present bit, page-size bit (levels 2 and 3 only), address and flags of an entry. */
  function Decode(e: nat, level: nat): Entry {
    if e % 2 == 0 then Absent
    else if level == 1 || (level <= 3 && e / PS_FLAG % 2 == 1) then Frame(e - Rem(e, level), e % PAGE_SIZE)
    else if e < KMEM_KERNEL_PAGETABLE then Absent
    else Pointer((e - e % PAGE_SIZE - KMEM_KERNEL_PAGETABLE) / PAGE_SIZE)
  }

  lemma DecodeEncoded(tree: Tree, pages: map<Node, nat>, used: nat, a: nat, level: nat)
    requires Placed(tree, pages, used) && Closed(tree) && 1 <= level <= 4
    ensures var c := At(a, level);
      Decode(Encoded(tree, pages, c), level) ==
        if c !in tree then Absent
        else if tree[c].Table? then Pointer(pages[c])
        else if Mappable(tree[c].typ) then Frame(a - Rem(a, level), LeafFlags(level, tree[c].typ))
        else Absent
  {
    var c := At(a, level);
    if c in tree {
      if tree[c].Leaf? { LeafDecodes(a, level, tree[c].typ); } else { PointerDecodes(pages[c]); }
    }
  }

  /** What the processor makes of what a walk of the tree finds. */
  function Seen(found: Found, a: nat): Translation {
    match found
    case Nothing => NotPresent
    case Page(level, typ) => if Mappable(typ) then Mapped(a, level, LeafFlags(level, typ)) else NotPresent
  }

  /** The low bits of a page-aligned address with flags. */
  lemma FlagBits(k: nat, f: nat)
    requires f < PAGE_SIZE
    ensures var e := PAGE_SIZE * k + f; e % PAGE_SIZE == f && e % 2 == f % 2 && e / PS_FLAG % 2 == f / PS_FLAG % 2
  {
    LowBits(k, f);
    Multiple2(2048 * k, f);
    SizeBit(k, f);
  }

  lemma LowBits(k: nat, f: nat)
    requires f < PAGE_SIZE
    ensures (PAGE_SIZE * k + f) % PAGE_SIZE == f
  {
  }

  lemma SizeBit(k: nat, f: nat)
    ensures (PAGE_SIZE * k + f) / PS_FLAG % 2 == f / PS_FLAG % 2
  {
    Multiple128(32 * k, f);
    Multiple2(16 * k, f / PS_FLAG);
  }

  lemma Multiple2(k: nat, f: nat)
    ensures (2 * k + f) % 2 == f % 2
  {
  }

  lemma Multiple128(k: nat, f: nat)
    ensures (PS_FLAG * k + f) / PS_FLAG == k + f / PS_FLAG
  {
  }

  lemma LeafAddress(i: nat, f: nat, a: nat, level: nat)
    requires 1 <= level <= 3 && f < PAGE_SIZE && i == Over(a, level)
    ensures var e := Times(i, level) + f; Rem(e, level) == f && e - Rem(e, level) + Rem(a, level) == a
  {
  }

  /** The bits of a leaf entry. */
  lemma LeafDecodes(a: nat, level: nat, typ: int)
    requires 1 <= level <= 3
    ensures var e, f := At(a, level).First() + LeafFlags(level, typ), LeafFlags(level, typ);
      && (e % 2 == 1 <==> Mappable(typ))
      && (Mappable(typ) && level > 1 ==> e / PS_FLAG % 2 == 1)
      && e % PAGE_SIZE == f && e - Rem(e, level) + Rem(a, level) == a
  {
    var i, f := Over(a, level), LeafFlags(level, typ);
    LeafAddress(i, f, a, level);
    var k := if level == 1 then i else if level == 2 then i * 0x200 else i * 0x4_0000;
    assert Times(i, level) == PAGE_SIZE * k;
    FlagBits(k, f);
  }

  lemma RwBit(k: nat, f: nat)
    requires f < PAGE_SIZE
    ensures (PAGE_SIZE * k + f) / 0x2 % 2 == f / 0x2 % 2
  {
    var h := 1024 * k;
    assert (PAGE_SIZE * k + f) / 0x2 == 2 * h + f / 0x2;
    Multiple2(h, f / 0x2);
  }

  lemma TableWritable(q: nat)
    ensures (KMEM_KERNEL_PAGETABLE + q * PAGE_SIZE + TABLE_FLAGS) / 0x2 % 2 == 1
  {
    RwBit(0x20 + q, TABLE_FLAGS);
  }

  lemma LeafWritable(a: nat, level: nat, typ: int)
    requires 1 <= level <= 3 && Mappable(typ)
    ensures (At(a, level).First() + LeafFlags(level, typ)) / 0x2 % 2 == 1
  {
    var i := Over(a, level);
    var k := if level == 1 then i else if level == 2 then i * 0x200 else i * 0x4_0000;
    assert At(a, level).First() == PAGE_SIZE * k;
    LeafBits(level, typ);
    RwBit(k, LeafFlags(level, typ));
  }

  /** The bits of an entry that points to a table. */
  lemma PointerDecodes(q: nat)
    ensures var e := KMEM_KERNEL_PAGETABLE + q * PAGE_SIZE + TABLE_FLAGS;
      && e % 2 == 1 && e / PS_FLAG % 2 == 0
      && (e - e % PAGE_SIZE - KMEM_KERNEL_PAGETABLE) / PAGE_SIZE == q
  {
    FlagBits(0x20 + q, TABLE_FLAGS);
  }
}
