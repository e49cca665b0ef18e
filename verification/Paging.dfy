/** Page tables made of page frames: add_pte, which maps the tables it has to add, and page_alloc. */
module Paging {
  import opened Common
  import opened PageTree
  import opened Frames
  import opened Growth

  class AddressSpace {
    const db: FrameDb
    const mem: array<seq<nat>>
    var proot: nat
    var vroot: nat
    var vnext: nat
    var vterm: nat
    ghost var tree: Tree
    ghost var pages: map<Node, nat>

    constructor (db: FrameDb, mem: array<seq<nat>>)
      ensures this.db == db && this.mem == mem
    {
      this.db, this.mem := db, mem;
    }

    /** The frames of the tables, all allocated, represent the tree. */
    ghost predicate Sound()
      reads this`tree, this`pages, this`proot, mem, db, db.pf
    {
      && mem.Length == db.pf.Length && db.Valid()
      && Represent(mem[..], tree, pages, proot)
      && (forall n :: n in pages ==> pages[n] < mem.Length && db.pf[pages[n]].typ == ALLOCATED)
    }

    ghost predicate Valid()
      reads this, mem, db, db.pf
    {
      Sound() && vnext % PAGE_SIZE == 0 && vterm <= LIMIT
    }

    ghost function Now(): World
      reads this`tree, this`pages, mem, db
    {
      World(mem[..], tree, pages, db.list)
    }

    /** The allocated frames. */
    ghost function Taken(): set<nat>
      reads db, db.pf
    {
      db.View().taken
    }

    /** pgalloc: a frame from the list, cleared. Fails where pfalloc stops, or would leave the database. */
    method PgAlloc() returns (ok: bool, f: nat)
      requires db.Valid() && mem.Length == db.pf.Length
      modifies db`head, db`list, db.pf, mem
      ensures old(Taken()) <= Taken()
      ensures db.Valid() && (ok <==> old(db.list) != [] && db.avail != 0)
      ensures !ok ==> db.list == old(db.list) && mem[..] == old(mem[..])
      ensures ok ==> f < mem.Length && db.list == old(db.list)[1..] && f == old(db.list[0])
      ensures ok ==> mem[..] == Zeroed(old(mem[..]), f) && f !in db.list
      ensures ok ==> db.pf[f].typ == ALLOCATED && old(db.pf[db.list[0]].typ) == AVAILABLE
      ensures forall q | 0 <= q < db.pf.Length && old(db.pf[q].typ) != AVAILABLE :: db.pf[q].typ == old(db.pf[q].typ)
      ensures old(Valid()) ==> Valid() && (ok ==> !Owns(pages, f))
    {
      ghost var m, l := mem[..], db.list;
      if l != [] { assert ListedAt(db.pf[..], l, 0); }
      if db.head == INVALID { return false, 0; }
      ok, f := db.PfAlloc();
      if !ok { return; }
      mem[f] := ZeroPage();
      assert mem[..] == Zeroed(m, f);
      if old(Valid()) { OtherFrame(m, mem[..], tree, pages, proot, f); }
    }

    /** pagetable_create: a cleared root table with the kernel's entries, and the window for further tables. */
    method Create(vaddr: nat, size: nat, kroot: nat) returns (ok: bool)
      requires db.Valid() && mem.Length == db.pf.Length && kroot < mem.Length && db.pf[kroot].typ != AVAILABLE
      requires forall f :: 0 <= f < mem.Length ==> |mem[f]| == SLOTS
      requires forall e :: 0 <= e < SLOTS ==> mem[kroot][e] == 0 || IsSystem(mem[kroot][e])
      requires vaddr % PAGE_SIZE == 0 && vaddr + size <= LIMIT
      modifies this, db`head, db`list, db.pf, mem
      ensures old(Taken()) <= Taken()
      ensures ok <==> size % PAGE_SIZE == 0 && old(db.list) != [] && db.avail != 0
      ensures ok ==> Valid() && tree == map[] && pages == map[ROOT := proot] && mem[proot] == old(mem[kroot])
      ensures ok ==> proot == old(db.list[0]) && db.list == old(db.list)[1..]
      ensures ok ==> vroot == vaddr && vnext == vaddr + PAGE_SIZE && vterm == vaddr + size
      ensures forall f :: 0 <= f < mem.Length && old(db.pf[f].typ) != AVAILABLE ==> mem[f] == old(mem[f])
    {
      if size % PAGE_SIZE != 0 { return false; }
      var f;
      ok, f := PgAlloc();
      if !ok { return; }
      SetWindow(vaddr, size);
      Install(f, kroot);
    }

    method SetWindow(vaddr: nat, size: nat)
      requires vaddr % PAGE_SIZE == 0 && vaddr + size <= LIMIT
      modifies this`vroot, this`vnext, this`vterm
      ensures vroot == vaddr && vnext == vaddr + PAGE_SIZE && vterm == vaddr + size
      ensures vnext % PAGE_SIZE == 0 && vterm <= LIMIT
    {
      vroot, vnext, vterm := vaddr, vaddr + PAGE_SIZE, vaddr + size;
      NextAligned(vaddr);
    }

    /** Makes a frame the root table, with a copy of the kernel's entries. */
    method Install(f: nat, kroot: nat)
      requires db.Valid() && mem.Length == db.pf.Length && f < mem.Length && kroot < mem.Length
      requires forall g :: 0 <= g < mem.Length ==> |mem[g]| == SLOTS
      requires forall e :: 0 <= e < SLOTS ==> mem[kroot][e] == 0 || IsSystem(mem[kroot][e])
      requires db.pf[f].typ == ALLOCATED
      modifies this`proot, this`tree, this`pages, mem
      ensures Sound() && proot == f && tree == map[] && pages == map[ROOT := f]
      ensures mem[f] == old(mem[kroot]) && forall g :: 0 <= g < mem.Length && g != f ==> mem[g] == old(mem[g])
    {
      mem[f] := mem[kroot];
      proot, tree, pages := f, map[], map[ROOT := f];
      RootOnly(mem[..], f);
    }

    /** One store into a table. */
    method Store(p: nat, e: nat, pte: nat)
      requires p < mem.Length && e < |mem[p]|
      modifies mem
      ensures mem[..] == Written(old(mem[..]), p, e, pte) && Taken() == old(Taken())
    {
      mem[p] := mem[p][e := pte];
      assert mem[..] == Written(old(mem[..]), p, e, pte);
    }

    /** Fills an empty slot with the entry of a zeroed frame, which becomes a table. */
    method FillSlot(p: nat, e: nat, f: nat, ghost n: Node)
      requires Valid() && n in pages && pages[n] == p && e < SLOTS && n.level >= 3 && mem[p][e] == 0
      requires Child(n, e) !in tree && Child(n, e).End() <= LIMIT
      requires f < mem.Length && mem[f] == ZeroPage() && !Owns(pages, f) && db.pf[f].typ == ALLOCATED
      modifies this`tree, this`pages, mem
      ensures Valid()
      ensures tree == old(tree)[Child(n, e) := Table] && pages == old(pages)[Child(n, e) := f]
      ensures mem[..] == Written(old(mem[..]), p, e, Pte(f)) && Taken() == old(Taken())
    {
      PlaceTable(mem[..], tree, pages, proot, n, e, f);
      Store(p, e, Pte(f));
      tree, pages := tree[Child(n, e) := Table], pages[Child(n, e) := f];
    }

    /** A new table in an empty slot. */
    method AddTable(p: nat, e: nat, ghost n: Node) returns (ok: bool, f: nat)
      requires Valid() && n in pages && pages[n] == p && e < SLOTS && n.level >= 3 && mem[p][e] == 0
      requires Child(n, e) !in tree && Child(n, e).End() <= LIMIT
      modifies this`tree, this`pages, db`head, db`list, db.pf, mem
      ensures old(Taken()) <= Taken()
      ensures Valid() && Advances(old(Now()), Now(), proot, Child(n, e), 0, 0)
      ensures ok ==> tree == old(tree)[Child(n, e) := Table] && pages == old(pages)[Child(n, e) := f]
      ensures !ok ==> tree == old(tree) && (db.list == [] || db.avail == 0)
    {
      ghost var w := Now();
      assert Represent(w.mem, w.tree, w.pages, proot) && Distinct(w.list);
      ok, f := PgAlloc();
      if !ok { AdvancesNot(w, proot, Child(n, e), 0, 0); return; }
      ghost var m := mem[..];
      FillSlot(p, e, f, n);
      TableAdvances(w, m, proot, n, p, e, f, Now());
    }

    ghost predicate NoFrames()
      reads db
    {
      db.list == [] || db.avail == 0
    }

    /** The table under slot e of the table at n, added if the slot is empty. */
    method Descend(p: nat, e: nat, ghost n: Node, ghost c: Node, added: seq<nat>)
      returns (ok: bool, q: nat, added': seq<nat>)
      requires Valid() && n in pages && pages[n] == p && e < SLOTS && n.level >= 3 && c == Child(n, e)
      requires c.End() <= LIMIT
      requires n != ROOT || !IsSystem(mem[p][e])
      modifies this`tree, this`pages, db`head, db`list, db.pf, mem
      ensures old(Taken()) <= Taken()
      ensures Valid() && Advances(old(Now()), Now(), proot, c, 0, 0)
      ensures ok ==> c in pages && q == pages[c] && tree == if c in old(tree) then old(tree) else old(tree)[c := Table]
      ensures ok ==> added' == if c in old(tree) then added else added + [q]
      ensures ok && c !in old(tree) ==> q in old(db.list)
      ensures !ok ==> tree == old(tree) && NoFrames()
    {
      SlotTells(mem[..], tree, pages, proot, n, e);
      added' := added;
      if mem[p][e] == 0 {
        ok, q := AddTable(p, e, n);
        if ok { added' := added' + [q]; }
      } else {
        AdvancesNot(Now(), proot, c, 0, 0);
        ok, q := true, Pointer(mem[p][e]);
      }
    }

    /** Maps a page of a lowest table to a frame, whatever it was mapped to before. */
    method SetLeaf(p: nat, e: nat, f: nat, ghost n: Node)
      requires Valid() && n in pages && pages[n] == p && n.level == 2 && e < SLOTS && Child(n, e).End() <= LIMIT
      modifies this`tree, mem
      ensures Valid() && tree == old(tree)[Child(n, e) := Leaf(f)] && Taken() == old(Taken())
      ensures Advances(old(Now()), Now(), proot, Child(n, e), 0, 0)
    {
      ghost var w := Now();
      PlaceLeaf(mem[..], tree, pages, proot, n, e, f);
      Store(p, e, Pte(f));
      tree := tree[Child(n, e) := Leaf(f)];
      LeafAdvances(w, proot, n, p, e, f, Now());
    }

    /** Tables were added exactly if there was no lowest table over the address, and the first of them is in a
        listed frame. */
    static ghost predicate Missing(was: Tree, list: seq<nat>, vaddr: nat, added: seq<nat>) {
      (added == [] <==> At(vaddr, 2) in was) && (added != [] ==> added[0] in list)
    }

    /** The lowest table over an address, with what tables had to be added. */
    method Tables(vaddr: nat) returns (ok: bool, ptt: nat, added: seq<nat>)
      requires Valid() && vaddr < LIMIT && !IsSystem(mem[proot][Over(vaddr, 4) % SLOTS])
      modifies this`tree, this`pages, db`head, db`list, db.pf, mem
      ensures old(Taken()) <= Taken()
      ensures Valid() && Advances(old(Now()), Now(), proot, At(vaddr, 2), 0, 0)
      ensures ok ==> At(vaddr, 2) in pages && ptt == pages[At(vaddr, 2)]
      ensures Lacking(tree) <= Lacking(old(tree))
      ensures ok && added != [] ==> Lacking(tree) < Lacking(old(tree))
      ensures ok ==> Missing(old(tree), old(db.list), vaddr, added)
      ensures !ok ==> NoFrames()
    {
      ghost var w, c4, c3, c2 := Now(), At(vaddr, 4), At(vaddr, 3), At(vaddr, 2);
      PathSlots(vaddr);
      var pdpt, pdt;
      ok, pdpt, added := Descend(proot, Over(vaddr, 4) % SLOTS, ROOT, c4, []);
      ghost var w4 := Now();
      StepGrows(w, w, w4, proot, c4, c2);
      if !ok { return false, 0, []; }
      ok, pdt, added := Descend(pdpt, Over(vaddr, 3) % SLOTS, c4, c3, added);
      ghost var w3 := Now();
      StepGrows(w, w4, w3, proot, c3, c2);
      if !ok { return false, 0, []; }
      ok, ptt, added := Descend(pdt, Over(vaddr, 2) % SLOTS, c3, c2, added);
      StepGrows(w, w3, Now(), proot, c2, c2);
      if ok && added != [] { LackingFalls(w.tree, tree, vaddr); }
      AbovePath(w.tree, vaddr);
    }

    /** Where add_pte stops: no address space is left for a table, or the address belongs to the system. */
    ghost predicate Blocked(vaddr: nat, containsTable: bool)
      requires proot < mem.Length && |mem[proot]| == SLOTS
      reads this, mem
    {
      (containsTable && vaddr >= vterm) || IsSystem(mem[proot][Over(vaddr, 4) % SLOTS])
    }

    /** Maps a page to a frame, adding tables where they are missing. */
    method MapPage(vaddr: nat, frame: nat) returns (ok: bool, added: seq<nat>)
      requires Valid() && vaddr < LIMIT && !IsSystem(mem[proot][Over(vaddr, 4) % SLOTS])
      modifies this`tree, this`pages, db`head, db`list, db.pf, mem
      ensures old(Taken()) <= Taken()
      ensures Valid() && Advances(old(Now()), Now(), proot, At(vaddr, 1), 0, 0) && Lacking(tree) <= Lacking(old(tree))
      ensures ok && added != [] ==> Lacking(tree) < Lacking(old(tree))
      ensures ok ==> At(vaddr, 1) in tree && tree[At(vaddr, 1)] == Leaf(frame) && At(vaddr, 2) in tree
      ensures ok ==> Missing(old(tree), old(db.list), vaddr, added)
      ensures !ok ==> NoFrames()
    {
      ghost var w, own := Now(), At(vaddr, 1);
      var ptt;
      ok, ptt, added := Tables(vaddr);
      StepGrows(w, w, Now(), proot, At(vaddr, 2), own);
      if ok { MapInTable(ptt, vaddr, frame, w); }
    }

    /** The last step of mapping a page: the slot of the lowest table. */
    method MapInTable(ptt: nat, vaddr: nat, frame: nat, ghost w: World)
      requires Valid() && vaddr < LIMIT && At(vaddr, 2) in pages && ptt == pages[At(vaddr, 2)]
      requires Advances(w, Now(), proot, At(vaddr, 1), 0, 0)
      modifies this`tree, mem
      ensures Valid() && Advances(w, Now(), proot, At(vaddr, 1), 0, 0) && Taken() == old(Taken())
      ensures Lacking(tree) == Lacking(old(tree))
      ensures At(vaddr, 1) in tree && tree[At(vaddr, 1)] == Leaf(frame) && At(vaddr, 2) in tree
    {
      ghost var w1, own := Now(), At(vaddr, 1);
      PathSlots(vaddr);
      SetLeaf(ptt, Over(vaddr, 1) % SLOTS, frame, At(vaddr, 2));
      AdvancesTwice(w, w1, Now(), proot, own, 0, 0, own, 0, 0);
    }

    /** What is mapped at the next address of the window after mapping a table there: that table if there was a
        lowest table over the address, and otherwise another one, which add_pte had to add and mapped to the same
        address. */
    ghost predicate AtWindow(was: Tree, list: seq<nat>, v: nat, table: nat)
      reads this`tree
    {
      if At(v, 2) in was then MapsTo(tree, At(v, 1), table) else exists f :: f in list && MapsTo(tree, At(v, 1), f)
    }

    /** add_pte: maps a page to a frame, and then the tables it had to add to the next addresses of the window. */
    method AddPte(vaddr: nat, frame: nat, containsTable: bool) returns (ok: bool)
      requires Valid() && (containsTable || vaddr < LIMIT)
      modifies this`tree, this`pages, this`vnext, db`head, db`list, db.pf, mem
      ensures old(Taken()) <= Taken()
      ensures Valid() && old(vnext) <= vnext
      ensures Grew(old(Now()), Now(), proot, At(vaddr, 1), old(vnext), vterm, frame, false, ok)
      ensures containsTable && vaddr >= vterm ==> !ok && Now() == old(Now()) && vnext == old(vnext)
      ensures ok && vaddr == old(vnext) ==> AtWindow(old(tree), old(db.list), vaddr, frame)
      ensures ok && At(vaddr, 2) in old(tree) ==> vnext == old(vnext)
      ensures !ok ==> NoFrames() || (vnext == old(vnext) && Blocked(vaddr, containsTable)) || Blocked(vnext, true)
      decreases Lacking(tree), 3
    {
      GrowsNot(Now(), proot, At(vaddr, 1), vnext, vterm, frame);
      if (containsTable && vaddr >= vterm) || IsSystem(mem[proot][Over(vaddr, 4) % SLOTS]) { return false; }
      ok := MapWithTables(vaddr, frame);
    }

    /** The part of add_pte after its checks. */
    method MapWithTables(vaddr: nat, frame: nat) returns (ok: bool)
      requires Valid() && vaddr < LIMIT && !IsSystem(mem[proot][Over(vaddr, 4) % SLOTS])
      modifies this`tree, this`pages, this`vnext, db`head, db`list, db.pf, mem
      ensures old(Taken()) <= Taken()
      ensures Valid() && old(vnext) <= vnext
      ensures Grew(old(Now()), Now(), proot, At(vaddr, 1), old(vnext), vterm, frame, false, ok)
      ensures ok && vaddr == old(vnext) ==> AtWindow(old(tree), old(db.list), vaddr, frame)
      ensures ok && At(vaddr, 2) in old(tree) ==> vnext == old(vnext)
      ensures !ok ==> NoFrames() || Blocked(vnext, true)
      decreases Lacking(tree), 2
    {
      ghost var w, own, v := Now(), At(vaddr, 1), vnext;
      var added;
      ok, added := MapPage(vaddr, frame);
      GrowsOnce(w, Now(), proot, own, v, vterm, frame, added != [], ok);
      if ok { ok := MapTables(added, w, own, v, frame); }
    }

    /** Moves on to the next address of the window. */
    method NextSlot()
      requires Valid()
      modifies this`vnext
      ensures Valid() && vnext == old(vnext) + PAGE_SIZE && Now() == old(Now())
    {
      NextAligned(vnext);
      vnext := vnext + PAGE_SIZE;
    }

    /** Maps one added table to the next address of the window. */
    method MapTable(table: nat, ghost w: World, ghost own: Node, ghost lo: nat, ghost frame: nat) returns (ok: bool)
      requires Valid() && lo <= vnext && own.level == 1 && Grew(w, Now(), proot, own, lo, vterm, frame, true, true)
      modifies this`tree, this`pages, this`vnext, db`head, db`list, db.pf, mem
      ensures old(Taken()) <= Taken()
      ensures Valid() && old(vnext) <= vnext && Grew(w, Now(), proot, own, lo, vterm, frame, true, true)
      ensures PagesKept(old(tree), tree, At(old(vnext), 1), old(vnext), vterm)
      ensures ok ==> AtWindow(old(tree), old(db.list), old(vnext), table) && vnext >= old(vnext) + PAGE_SIZE
      ensures ok && At(old(vnext), 2) in old(tree) ==> vnext == old(vnext) + PAGE_SIZE
      ensures ok && table !in old(db.list) ==>
        (MapsTo(tree, At(old(vnext), 1), table) <==> At(old(vnext), 2) in old(tree))
      ensures !ok ==> NoFrames() || Blocked(vnext, true)
      decreases Lacking(w.tree), 0
    {
      ghost var w', v := Now(), vnext;
      ok := AddPte(vnext, table, true);
      GrowsMore(w, w', Now(), proot, own, lo, v, vterm, frame, true);
      if ok { NextSlot(); }
    }

    /** The loop at the end of add_pte, which maps the added tables to the next addresses of the window. */
    method MapTables(added: seq<nat>, ghost w: World, ghost own: Node, ghost lo: nat, ghost frame: nat)
      returns (ok: bool)
      requires Valid() && lo <= vnext && own.level == 1
      requires Grew(w, Now(), proot, own, lo, vterm, frame, added != [], true)
      modifies this`tree, this`pages, this`vnext, db`head, db`list, db.pf, mem
      ensures old(Taken()) <= Taken()
      ensures Valid() && old(vnext) <= vnext && Grew(w, Now(), proot, own, lo, vterm, frame, added != [], true)
      ensures added == [] ==> tree == old(tree) && vnext == old(vnext)
      ensures ok && added != [] && At(old(vnext), 2) in old(tree) ==> MapsTo(tree, At(old(vnext), 1), added[0])
      ensures !ok ==> NoFrames() || Blocked(vnext, true)
      decreases Lacking(w.tree), 1
    {
      ghost var v, t := vnext, tree;
      var i := 0;
      while i < |added|
        invariant i <= |added| && Valid() && lo <= v <= vnext && old(Taken()) <= Taken()
        invariant Grew(w, Now(), proot, own, lo, vterm, frame, added != [], true)
        invariant if i == 0 then vnext == v && tree == t
          else vnext >= v + PAGE_SIZE && (At(v, 2) in t ==> MapsTo(tree, At(v, 1), added[0]))
      {
        ghost var t1, v1 := tree, vnext;
        ok := MapTable(added[i], w, own, lo, frame);
        if !ok { return; }
        if i > 0 { FirstStays(t1, tree, v, v1, vterm); }
        i := i + 1;
      }
      ok := true;
    }

    /** One round of page_alloc: a cleared frame from the list, mapped at an address. */
    method AllocPage(vaddr: nat) returns (ok: bool, f: nat)
      requires Valid() && vaddr < LIMIT && !(vnext <= At(vaddr, 1).First() < vterm)
      modifies this`tree, this`pages, this`vnext, db`head, db`list, db.pf, mem
      ensures old(Taken()) <= Taken()
      ensures Valid() && old(vnext) <= vnext
      ensures ok ==> TakesFrame(old(Now()), Now(), proot, At(vaddr, 1), old(vnext), vterm, f)
      ensures !ok ==> NoFrames() || Blocked(vaddr, false) || Blocked(vnext, true)
    {
      ok, f := PgAlloc();
      if !ok { return; }
      ok := AddPte(vaddr, f, false);
    }

    /** The next page of a range. */
    method AllocNext(vaddr: nat, ghost start: nat, ghost w: World, ghost frames: seq<nat>, ghost lo: nat)
      returns (ok: bool, f: nat)
      requires Valid() && start % PAGE_SIZE == 0 && vaddr == PageAt(start, |frames|) && vaddr < LIMIT && lo <= vnext
      requires PageAt(start, |frames| + 1) <= lo || vterm <= start
      requires Allocated(w, Now(), proot, start, frames, lo, vterm)
      modifies this`tree, this`pages, this`vnext, db`head, db`list, db.pf, mem
      ensures old(Taken()) <= Taken()
      ensures Valid() && old(vnext) <= vnext
      ensures ok ==> Allocated(w, Now(), proot, start, frames + [f], lo, vterm)
      ensures !ok ==> NoFrames() || Blocked(vaddr, false) || Blocked(vnext, true)
    {
      ghost var w', v := Now(), vnext;
      AtPage(start, |frames|);
      ok, f := AllocPage(vaddr);
      if ok { OneMore(w, w', Now(), proot, start, frames, lo, v, vterm, f); }
    }

    /** page_alloc: maps each page of a range to a cleared frame of its own. */
    method PageAlloc(start: nat, count: nat) returns (ok: bool, ghost frames: seq<nat>)
      requires Valid() && start % PAGE_SIZE == 0 && start + count * PAGE_SIZE <= LIMIT
      requires start + count * PAGE_SIZE <= vnext || vterm <= start
      modifies this`tree, this`pages, this`vnext, db`head, db`list, db.pf, mem
      ensures old(Taken()) <= Taken()
      ensures Valid() && old(vnext) <= vnext
      ensures ok ==> |frames| == count && Allocated(old(Now()), Now(), proot, start, frames, old(vnext), vterm)
      ensures !ok ==>
        NoFrames() || Blocked(vnext, true) || exists k :: 0 <= k < count && Blocked(PageAt(start, k), false)
    {
      ghost var w, v := Now(), vnext;
      var vaddr, k := start, 0;
      frames := [];
      NothingAllocated(w, proot, start, v, vterm);
      while k < count
        invariant k <= count && vaddr == PageAt(start, k) && Valid() && v <= vnext && |frames| == k
        invariant old(Taken()) <= Taken()
        invariant Allocated(w, Now(), proot, start, frames, v, vterm)
      {
        var f;
        ok, f := AllocNext(vaddr, start, w, frames, v);
        if !ok { return; }
        frames := frames + [f];
        vaddr := vaddr + PAGE_SIZE;
        k := k + 1;
      }
      ok := true;
    }

    /** The table that a slot leads to. */
    method Follow(p: nat, e: nat, ghost n: Node, ghost c: Node) returns (q: nat)
      requires Valid() && n in pages && pages[n] == p && e < SLOTS && c == Child(n, e) && c in tree && tree[c].Table?
      ensures c in pages && q == pages[c]
    {
      assert EntryAt(mem[..], tree, pages, n, e);
      SlotTells(mem[..], tree, pages, proot, n, e);
      q := Pointer(mem[p][e]);
    }

    /** The lowest table over an address that has one. */
    method LowestTable(vaddr: nat) returns (ptt: nat)
      requires Valid() && vaddr < LIMIT && At(vaddr, 2) in tree
      ensures At(vaddr, 2) in pages && ptt == pages[At(vaddr, 2)]
    {
      TablePath(tree, vaddr);
      var pdpt := Follow(proot, Over(vaddr, 4) % SLOTS, ROOT, At(vaddr, 4));
      var pdt := Follow(pdpt, Over(vaddr, 3) % SLOTS, At(vaddr, 4), At(vaddr, 3));
      ptt := Follow(pdt, Over(vaddr, 2) % SLOTS, At(vaddr, 3), At(vaddr, 2));
    }

    /** Empties a slot of a lowest table. */
    method ClearSlot(p: nat, e: nat, ghost n: Node)
      requires Valid() && n in pages && pages[n] == p && n.level == 2 && e < SLOTS
      modifies this`tree, mem
      ensures Valid() && tree == old(tree) - {Child(n, e)} && MemoryKept(old(mem[..]), mem[..], pages, proot)
      ensures Taken() == old(Taken())
    {
      ClearLeaf(mem[..], tree, pages, proot, n, e);
      Store(p, e, 0);
      tree := tree - {Child(n, e)};
    }

    /** remove_pte: unmaps a page and returns the frame that it was mapped to, or 0 if it was not mapped. */
    method RemovePte(vaddr: nat) returns (f: nat)
      requires Valid() && vaddr < LIMIT && At(vaddr, 2) in tree
      modifies this`tree, mem
      ensures Valid() && tree == old(tree) - {At(vaddr, 1)}
      ensures if At(vaddr, 1) in old(tree) then MapsTo(old(tree), At(vaddr, 1), f) else f == 0
      ensures MemoryKept(old(mem[..]), mem[..], pages, proot) && Taken() == old(Taken())
    {
      var ptt := LowestTable(vaddr);
      var e := Over(vaddr, 1) % SLOTS;
      ChildAt(vaddr, 1);
      SlotTells(mem[..], tree, pages, proot, At(vaddr, 2), e);
      f := Pointer(mem[ptt][e]);
      ClearSlot(ptt, e, At(vaddr, 2));
    }

    /** An allocated frame with one reference that holds no table. */
    ghost predicate Freeable(f: nat)
      requires db.pf.Length == mem.Length
      reads this`pages, db, db.pf
    {
      f < mem.Length && !Owns(pages, f) && db.pf[f].typ == ALLOCATED && db.pf[f].refcount == 1
    }

    /** Gives a frame back. */
    method GiveBack(f: nat)
      requires Valid() && db.list != [] && Freeable(f)
      modifies db`head, db`list, db`avail, db.pf
      ensures Valid() && db.list == [f] + old(db.list) && Taken() == old(Taken()) - {f}
      ensures forall q :: q != f && old(Freeable(q)) ==> Freeable(q)
    {
      var ok := db.PgFree(f);
    }

    /** One round of page_free: the page is unmapped, and its frame goes back to the list. */
    method FreePage(vaddr: nat) returns (ghost f: nat)
      requires Valid() && vaddr < LIMIT && At(vaddr, 1) in tree && db.list != []
      requires tree[At(vaddr, 1)].typ >= 0 && Freeable(tree[At(vaddr, 1)].typ)
      modifies this`tree, mem, db`head, db`list, db`avail, db.pf
      ensures Valid() && old(tree[At(vaddr, 1)]) == Leaf(f) && tree == old(tree) - {At(vaddr, 1)}
      ensures db.list == [f] + old(db.list) && MemoryKept(old(mem[..]), mem[..], pages, proot)
      ensures Taken() == old(Taken()) - {f}
      ensures forall q :: q != f && old(Freeable(q)) ==> Freeable(q)
    {
      PathTables(tree, vaddr);
      var p := RemovePte(vaddr);
      f := p;
      GiveBack(p);
    }

    /** What page_free has done after k pages. */
    ghost predicate FreedTo(m: seq<seq<nat>>, t: Tree, l: seq<nat>, start: nat, frames: seq<nat>, k: nat)
      requires k <= |frames|
      reads this`tree, this`pages, this`proot, mem, db
    {
      && Freed(t, tree, start, k) && MemoryKept(m, mem[..], pages, proot)
      && db.list == Returned(frames[..k], l)
    }

    /** The pages from the k-th on are mapped, to frames that can be freed. */
    ghost predicate ToFree(start: nat, frames: seq<nat>, k: nat)
      requires db.pf.Length == mem.Length
      reads this, db, db.pf
    {
      forall j :: k <= j < |frames| ==> MapsTo(tree, At(PageAt(start, j), 1), frames[j]) && Freeable(frames[j])
    }

    /** page_free: unmaps each page of a range and gives its frame back. */
    method PageFree(start: nat, count: nat, ghost frames: seq<nat>)
      requires Valid() && start % PAGE_SIZE == 0 && start + count * PAGE_SIZE <= LIMIT && db.list != []
      requires |frames| == count && Distinct(frames) && ToFree(start, frames, 0)
      modifies this`tree, mem, db`head, db`list, db`avail, db.pf
      ensures Valid() && FreedTo(old(mem[..]), old(tree), old(db.list), start, frames, count)
      ensures forall q :: q in old(Taken()) && q !in frames ==> q in Taken()
    {
      ghost var m, t, l := mem[..], tree, db.list;
      var vaddr, k := start, 0;
      FreedNone(tree, start);
      assert frames[..0] == [];
      while k < count
        invariant k <= count && vaddr == PageAt(start, k) && Valid() && db.list != []
        invariant FreedTo(m, t, l, start, frames, k) && ToFree(start, frames, k)
        invariant forall q :: q in old(Taken()) && q !in frames ==> q in Taken()
      {
        FreeNext(vaddr, m, t, l, start, frames, k);
        vaddr := vaddr + PAGE_SIZE;
        k := k + 1;
      }
      assert frames[..count] == frames;
    }

    /** The next page of the range. */
    method FreeNext(vaddr: nat, ghost m: seq<seq<nat>>, ghost t: Tree, ghost l: seq<nat>,
                    ghost start: nat, ghost frames: seq<nat>, ghost k: nat)
      requires Valid() && start % PAGE_SIZE == 0 && vaddr == PageAt(start, k) < LIMIT && db.list != []
      requires k < |frames| && Distinct(frames) && FreedTo(m, t, l, start, frames, k) && ToFree(start, frames, k)
      modifies this`tree, mem, db`head, db`list, db`avail, db.pf
      ensures Valid() && db.list != [] && FreedTo(m, t, l, start, frames, k + 1) && ToFree(start, frames, k + 1)
      ensures Taken() == old(Taken()) - {frames[k]}
    {
      ghost var m1, t1 := mem[..], tree;
      assert MapsTo(tree, At(PageAt(start, k), 1), frames[k]);
      ghost var f := FreePage(vaddr);
      FreedMore(t, t1, tree, start, k);
      MemoryKeptTwice(m, m1, mem[..], pages, proot);
      ReturnedMore(frames, l, k);
      StillMapped(t1, tree, start, frames, k);
    }
  }
}
