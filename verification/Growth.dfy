/** Page tables in page frames, as values: what their frames say, and what adding mappings may change. */
module Growth {
  import opened Common
  import opened PageTree
  import opened Frames

  const PRESENT_RW := 0x3          // PF_PRESENT | PF_RW
  const SYSTEM_FLAG := 0x200       // PF_SYSTEM
  const PS_FLAG := 0x80

  /** The contents of the page frames. */
  type Memory = seq<seq<nat>>

  predicate IsSystem(pte: nat) { pte / SYSTEM_FLAG % 2 == 1 }

  /** A cleared page. */
  function ZeroPage(): (z: seq<nat>)
    ensures |z| == SLOTS && forall e :: 0 <= e < SLOTS ==> z[e] == 0
  {
    seq(SLOTS, _ => 0)
  }

  // ----- What the frames say -----

  /** The entry that maps a frame, or points to a table in it. */
  function Pte(f: nat): nat { f * PAGE_SIZE + PRESENT_RW }

  /** The entry for a node; a leaf's type is the number of the frame that it maps. */
  ghost function Entry(tree: Tree, pages: map<Node, nat>, n: Node): nat {
    if n !in tree then 0
    else match tree[n]
      case Leaf(f) => Pte(if f < 0 then 0 else f)
      case Table => Pte(if n in pages then pages[n] else 0)
  }

  /** One frame for each table of the tree and for the root. */
  ghost predicate Placed(tree: Tree, pages: map<Node, nat>, root: nat) {
    && ROOT in pages && pages[ROOT] == root && (forall n :: n in pages ==> n.level >= 2)
    && (forall n :: n in pages <==> n == ROOT || (n in tree && tree[n].Table?))
    && (forall n, m :: n in pages && m in pages && pages[n] == pages[m] ==> n == m)
  }

  /** Leaves are 4 KiB pages of frames. */
  ghost predicate SmallLeaves(tree: Tree) {
    forall n :: n in tree && tree[n].Leaf? ==> n.level == 1 && tree[n].typ >= 0
  }

  /** Slot e of the table at n: a system entry, which is no part of the tree, or what the tree says. */
  ghost predicate EntryAt(mem: Memory, tree: Tree, pages: map<Node, nat>, n: Node, e: nat)
    requires n in pages && pages[n] < |mem| && e < |mem[pages[n]]| && n.level >= 1
  {
    if n == ROOT && IsSystem(mem[pages[n]][e]) then Child(n, e) !in tree
    else mem[pages[n]][e] == Entry(tree, pages, Child(n, e))
  }

  ghost predicate Entries(mem: Memory, tree: Tree, pages: map<Node, nat>)
    requires forall f :: 0 <= f < |mem| ==> |mem[f]| == SLOTS
    requires forall n :: n in pages ==> pages[n] < |mem| && n.level >= 1
  {
    forall n, e :: n in pages && 0 <= e < SLOTS ==> EntryAt(mem, tree, pages, n, e)
  }

  /** The frames of the tables represent the tree. */
  ghost predicate Represent(mem: Memory, tree: Tree, pages: map<Node, nat>, root: nat) {
    && Placed(tree, pages, root) && Closed(tree) && SmallLeaves(tree)
    && (forall f :: 0 <= f < |mem| ==> |mem[f]| == SLOTS)
    && (forall n :: n in pages ==> pages[n] < |mem|)
    && Entries(mem, tree, pages)
  }

  ghost predicate Owns(pages: map<Node, nat>, f: nat) {
    exists n :: n in pages && pages[n] == f
  }

  /** The memory after a frame was cleared. */
  function Zeroed(mem: Memory, f: nat): Memory
    requires f < |mem|
  {
    mem[f := ZeroPage()]
  }

  /** The contents of a frame that holds no table do not matter. */
  lemma OtherFrame(mem: Memory, mem': Memory, tree: Tree, pages: map<Node, nat>, root: nat, f: nat)
    requires Represent(mem, tree, pages, root) && !Owns(pages, f) && f < |mem|
    requires |mem'| == |mem| && |mem'[f]| == SLOTS && forall g :: 0 <= g < |mem| && g != f ==> mem'[g] == mem[g]
    ensures Represent(mem', tree, pages, root)
  {
    forall n, e | n in pages && 0 <= e < SLOTS
      ensures pages[n] < |mem'| && |mem'[pages[n]]| == SLOTS && EntryAt(mem', tree, pages, n, e)
    {
      assert EntryAt(mem, tree, pages, n, e);
    }
  }

  // ----- What adding a mapping may change -----

  /** The part of the list that is left after some frames were taken from its front. */
  ghost predicate Rest(l: seq<nat>, was: seq<nat>) {
    |l| <= |was| && l == was[|was| - |l|..]
  }

  /** Tables are kept, and the new ones are in frames from the front of the list. */
  ghost predicate TablesKept(p: map<Node, nat>, l: seq<nat>, p': map<Node, nat>, l': seq<nat>) {
    && Rest(l', l)
    && (forall n :: n in p ==> n in p' && p'[n] == p[n])
    && (forall n :: n in p' && n !in p ==> p'[n] in l && p'[n] !in l')
  }

  /** Only tables are written, and no system entry. */
  ghost predicate MemoryKept(mem: Memory, mem': Memory, p': map<Node, nat>, root: nat) {
    && |mem| == |mem'| && root < |mem|
    && (forall f :: 0 <= f < |mem| && !Owns(p', f) ==> mem'[f] == mem[f])
    && |mem[root]| == |mem'[root]|
    && (forall e :: 0 <= e < |mem[root]| && (IsSystem(mem[root][e]) || IsSystem(mem'[root][e])) ==>
      mem'[root][e] == mem[root][e])
  }

  /** Tables stay, and so do the mappings of all pages but `own` and those from lo to hi. */
  ghost predicate PagesKept(t: Tree, t': Tree, own: Node, lo: nat, hi: nat) {
    && (forall n :: n in t && t[n].Table? ==> n in t' && t'[n].Table?)
    && (forall n: Node :: n.level == 1 && n != own && !(lo <= n.First() < hi) ==> SameSlot(t, t', n))
  }

  ghost predicate SameSlot(t: Tree, t': Tree, n: Node) {
    (n in t <==> n in t') && (n in t ==> t'[n] == t[n])
  }

  /** What there is to say about an address space. */
  datatype World = World(mem: Memory, tree: Tree, pages: map<Node, nat>, list: seq<nat>)

  /** From w to w' only tables were added and written, and no page was mapped or changed but `own` and those from lo
      to hi. */
  ghost predicate Advances(w: World, w': World, root: nat, own: Node, lo: nat, hi: nat) {
    && TablesKept(w.pages, w.list, w'.pages, w'.list)
    && MemoryKept(w.mem, w'.mem, w'.pages, root)
    && PagesKept(w.tree, w'.tree, own, lo, hi)
  }

  lemma AdvancesTwice(w: World, w': World, w'': World, root: nat, own: Node, lo: nat, hi: nat, own': Node, lo': nat,
                      hi': nat)
    requires Advances(w, w', root, own, lo, hi) && Advances(w', w'', root, own', lo', hi')
    requires own' == own || own'.level != 1 || lo <= own'.First() < hi
    requires lo' >= hi' || (lo <= lo' && hi' <= hi)
    ensures Advances(w, w'', root, own, lo, hi)
  {
  }

  lemma AdvancesNot(w: World, root: nat, own: Node, lo: nat, hi: nat)
    requires root < |w.mem|
    ensures Advances(w, w, root, own, lo, hi)
  {
    forall n: Node | n.level == 1 ensures SameSlot(w.tree, w.tree, n) {}
  }

  /** The prefixes of addresses that have no lowest table. */
  const PREFIXES := 0x800_0000     // LIMIT / 0x20_0000

  ghost function Lacking(t: Tree): set<nat> {
    set p: nat | p < PREFIXES && !(Node(2, p) in t && t[Node(2, p)].Table?)
  }

  /** PGPTR: the frame that an entry points to; the flags lie below bit 10. */
  function Pointer(pte: nat): nat { (pte - pte % 0x400) / PAGE_SIZE }

  /** An entry made from a frame is not empty, has no system flag, and leads back to the frame. */
  lemma EntryBits(f: nat)
    ensures var pte := Pte(f); !IsSystem(pte) && pte != 0 && Pointer(pte) == f
  {
  }

  lemma Doubled(q: nat)
    ensures (2 * q) % 2 == 0
  {
  }

  /** What a slot that is no system entry tells. */
  lemma SlotTells(mem: Memory, tree: Tree, pages: map<Node, nat>, root: nat, n: Node, e: nat)
    requires Represent(mem, tree, pages, root) && n in pages && e < SLOTS
    requires n != ROOT || !IsSystem(mem[pages[n]][e])
    ensures var c, pte := Child(n, e), mem[pages[n]][e];
      && (pte == 0 <==> c !in tree)
      && (c in tree && tree[c].Table? ==> c in pages && Pointer(pte) == pages[c])
      && (c in tree && tree[c].Leaf? ==> Pointer(pte) == tree[c].typ)
  {
    assert EntryAt(mem, tree, pages, n, e);
    var c, pte := Child(n, e), mem[pages[n]][e];
    if c in tree {
      var f := if tree[c].Table? then pages[c] else tree[c].typ;
      assert pte == Pte(f);
      EntryBits(f);
    }
  }

  /** The memory after one store. */
  function Written(mem: Memory, p: nat, e: nat, pte: nat): Memory
    requires p < |mem| && e < |mem[p]|
  {
    var row: seq<nat> := mem[p][e := pte];
    mem[p := row]
  }

  /** The entries after a zeroed frame became a table. */
  lemma TableEntries(mem: Memory, tree: Tree, pages: map<Node, nat>, root: nat, n: Node, e: nat, f: nat, c: Node,
                     mem': Memory)
    requires Represent(mem, tree, pages, root) && n in pages && n.level >= 3 && e < SLOTS && c == Child(n, e)
    requires c !in tree
    requires f < |mem| && mem[f] == ZeroPage() && !Owns(pages, f) && mem[pages[n]][e] == 0
    requires mem' == Written(mem, pages[n], e, Pte(f))
    ensures c.level >= 2 && forall g :: 0 <= g < |mem'| ==> |mem'[g]| == SLOTS
    ensures Entries(mem', tree[c := Table], pages[c := f])
  {
    assert pages[n] != f;
    EntryBits(f);
    var tree', pages' := tree[c := Table], pages[c := f];
    forall m, k | m in pages' && 0 <= k < SLOTS
      ensures EntryAt(mem', tree', pages', m, k)
    {
      if m == c {
        ChildParent(c, k);
      } else {
        assert EntryAt(mem, tree, pages, m, k);
        if Child(m, k) == c { ChildInjective(m, k, n, e); }
      }
    }
  }

  /** A zeroed frame becomes a table. */
  lemma PlaceTable(mem: Memory, tree: Tree, pages: map<Node, nat>, root: nat, n: Node, e: nat, f: nat)
    requires Represent(mem, tree, pages, root) && n in pages && n.level >= 3 && e < SLOTS
    requires f < |mem| && mem[f] == ZeroPage() && !Owns(pages, f)
    requires var c := Child(n, e); c !in tree && c.End() <= LIMIT && mem[pages[n]][e] == 0
    ensures var c, p := Child(n, e), pages[n];
      Represent(Written(mem, p, e, Pte(f)), tree[c := Table], pages[c := f], root)
  {
    var c := Child(n, e);
    TableEntries(mem, tree, pages, root, n, e, f, c, Written(mem, pages[n], e, Pte(f)));
    ClosedAdd(tree, n, e, Table);
  }

  lemma TableAdvances(w: World, m: Memory, root: nat, n: Node, p: nat, e: nat, f: nat, w': World)
    requires Represent(w.mem, w.tree, w.pages, root) && n in w.pages && n.level >= 3 && e < SLOTS
    requires p == w.pages[n] && Child(n, e) !in w.tree && w.mem[p][e] == 0
    requires w.list != [] && Distinct(w.list) && f == w.list[0] && f < |w.mem| && !Owns(w.pages, f)
    requires m == Zeroed(w.mem, f) && w'.mem == Written(m, p, e, Pte(f))
    requires w'.tree == w.tree[Child(n, e) := Table] && w'.pages == w.pages[Child(n, e) := f]
    requires w'.list == w.list[1..]
    ensures Advances(w, w', root, Child(n, e), 0, 0)
  {
    assert ROOT in w.pages;
    TableMemory(w.mem, m, w.pages, root, n, p, e, f, Child(n, e), w'.mem);
    forall n: Node | n.level == 1 ensures SameSlot(w.tree, w'.tree, n) {}
  }

  /** Only the new table and the one that points to it were written. */
  lemma TableMemory(mem: Memory, m: Memory, pages: map<Node, nat>, root: nat, n: Node, p: nat, e: nat, f: nat, c: Node,
                    mem': Memory)
    requires ROOT in pages && pages[ROOT] == root && n in pages && p == pages[n] && c !in pages
    requires f < |mem| && !Owns(pages, f) && root < |mem| && p < |mem| && e < |mem[p]| && mem[p][e] == 0
    requires m == Zeroed(mem, f) && p != f && mem' == Written(m, p, e, Pte(f))
    ensures MemoryKept(mem, mem', pages[c := f], root)
  {
    var pages' := pages[c := f];
    assert pages'[c] == f && pages'[n] == p && root != f;
    EntryBits(f);
    assert !IsSystem(0);
    forall g | 0 <= g < |mem| && !Owns(pages', g)
      ensures mem'[g] == mem[g]
    {
      assert g != f && g != p;
    }
  }

  /** A page of the lowest table is mapped to a frame. */
  lemma PlaceLeaf(mem: Memory, tree: Tree, pages: map<Node, nat>, root: nat, n: Node, e: nat, f: nat)
    requires Represent(mem, tree, pages, root) && n in pages && n.level == 2 && e < SLOTS && Child(n, e).End() <= LIMIT
    ensures var c, p := Child(n, e), pages[n];
      Represent(Written(mem, p, e, Pte(f)), tree[c := Leaf(f)], pages, root)
  {
    var c, p := Child(n, e), pages[n];
    var mem', tree' := Written(mem, p, e, Pte(f)), tree[c := Leaf(f)];
    ClosedAdd(tree, n, e, Leaf(f));
    forall m, k | m in pages && 0 <= k < SLOTS
      ensures EntryAt(mem', tree', pages, m, k)
    {
      assert EntryAt(mem, tree, pages, m, k);
      if Child(m, k) == c { ChildInjective(m, k, n, e); }
    }
  }

  /** A frame is taken from the list, cleared, and mapped. */
  ghost predicate TakesFrame(w: World, w': World, root: nat, own: Node, lo: nat, hi: nat, f: nat) {
    && w.list != [] && f == w.list[0] && f < |w.mem| && !Owns(w.pages, f) && MapsTo(w'.tree, own, f)
    && Advances(World(Zeroed(w.mem, f), w.tree, w.pages, w.list[1..]), w', root, own, lo, hi)
  }

  function PageAt(start: nat, k: nat): nat { start + k * PAGE_SIZE }

  lemma AtPage(start: nat, k: nat)
    requires start % PAGE_SIZE == 0
    ensures At(PageAt(start, k), 1).First() == PageAt(start, k)
  {
    assert PageAt(start, k) == PAGE_SIZE * (start / PAGE_SIZE + k);
  }

  /** A page is mapped to a cleared frame that was on the list and is used for nothing else. */
  ghost predicate Fresh(w: World, w': World, n: Node, f: nat) {
    && MapsTo(w'.tree, n, f) && f < |w'.mem| && w'.mem[f] == ZeroPage()
    && f in w.list && f !in w'.list && !Owns(w'.pages, f)
  }

  /** After page_alloc: each page has a fresh frame, none twice; tables are kept; only tables and frames from the
      list are written; and no page outside the range and the window is mapped differently. */
  ghost predicate Allocated(w: World, w': World, root: nat, start: nat, frames: seq<nat>, lo: nat, hi: nat) {
    && (forall k :: 0 <= k < |frames| ==> Fresh(w, w', At(PageAt(start, k), 1), frames[k]))
    && Distinct(frames)
    && Rest(w'.list, w.list) && OtherMemoryKept(w, w', root)
    && (forall n :: n in w.pages ==> n in w'.pages && w'.pages[n] == w.pages[n])
    && (forall n :: n in w'.pages && n !in w.pages ==> w'.pages[n] in w.list)
    && (forall n: Node :: n.level == 1 && !(start <= n.First() < PageAt(start, |frames|)) && !(lo <= n.First() < hi) ==>
      SameSlot(w.tree, w'.tree, n))
  }

  ghost predicate OtherMemoryKept(w: World, w': World, root: nat) {
    && |w.mem| == |w'.mem| && root < |w.mem| && |w.mem[root]| == |w'.mem[root]|
    && (forall f :: 0 <= f < |w.mem| && f !in w.list && !Owns(w.pages, f) ==> w'.mem[f] == w.mem[f])
    && (forall e :: 0 <= e < |w.mem[root]| && (IsSystem(w.mem[root][e]) || IsSystem(w'.mem[root][e])) ==>
      w'.mem[root][e] == w.mem[root][e])
  }

  lemma NothingAllocated(w: World, root: nat, start: nat, lo: nat, hi: nat)
    requires root < |w.mem|
    ensures Allocated(w, w, root, start, [], lo, hi)
  {
    forall n: Node | n.level == 1 ensures SameSlot(w.tree, w.tree, n) {}
  }

  /** What is left of a list has no elements of its own, and a part of a distinct list is distinct. */
  lemma RestElements(l: seq<nat>, was: seq<nat>)
    requires Rest(l, was)
    ensures forall x :: x in l ==> x in was
    ensures Distinct(was) ==> Distinct(l)
  {
  }

  /** No frame outside the list becomes a table. */
  lemma NotTaken(w: World, w': World, root: nat, own: Node, lo: nat, hi: nat, f: nat, g: nat)
    requires TakesFrame(w, w', root, own, lo, hi, f) && Distinct(w.list) && !Owns(w.pages, g)
    requires g !in w.list || g == f
    ensures !Owns(w'.pages, g) && g !in w'.list
    ensures g < |w.mem| ==> g < |w'.mem| && w'.mem[g] == Zeroed(w.mem, f)[g]
  {
  }

  lemma FreshStays(w: World, w': World, w'': World, root: nat, own: Node, lo: nat, hi: nat, f: nat, n: Node, g: nat)
    requires Fresh(w, w', n, g) && TakesFrame(w', w'', root, own, lo, hi, f) && Distinct(w'.list)
    requires n.level == 1 && n != own && !(lo <= n.First() < hi)
    ensures Fresh(w, w'', n, g)
  {
  }

  lemma FreshNew(w: World, w': World, w'': World, root: nat, own: Node, lo: nat, hi: nat, f: nat)
    requires Rest(w'.list, w.list) && TakesFrame(w', w'', root, own, lo, hi, f) && Distinct(w'.list)
    ensures Fresh(w, w'', own, f)
  {
    NotTaken(w', w'', root, own, lo, hi, f, f);
    RestElements(w'.list, w.list);
  }

  lemma OtherMemoryStays(w: World, w': World, w'': World, root: nat, own: Node, lo: nat, hi: nat, f: nat)
    requires OtherMemoryKept(w, w', root) && TakesFrame(w', w'', root, own, lo, hi, f) && Distinct(w'.list)
    requires Rest(w'.list, w.list) && Owns(w'.pages, root)
    requires forall n :: n in w'.pages ==> (n in w.pages && w'.pages[n] == w.pages[n]) || w'.pages[n] in w.list
    ensures OtherMemoryKept(w, w'', root)
  {
  }

  /** One more page of a range: the frames that were fresh stay so. */
  lemma MoreFresh(w: World, w': World, w'': World, root: nat, start: nat, frames: seq<nat>, lo: nat, v: nat, hi: nat,
                  f: nat, k: nat)
    requires Allocated(w, w', root, start, frames, lo, hi) && lo <= v && start % PAGE_SIZE == 0
    requires TakesFrame(w', w'', root, At(PageAt(start, |frames|), 1), v, hi, f)
    requires Distinct(w'.list) && k <= |frames|
    requires PageAt(start, |frames| + 1) <= lo || hi <= start
    ensures Fresh(w, w'', At(PageAt(start, k), 1), (frames + [f])[k])
  {
    var own := At(PageAt(start, |frames|), 1);
    AtPage(start, k);
    AtPage(start, |frames|);
    if k == |frames| {
      FreshNew(w, w', w'', root, own, v, hi, f);
    } else {
      FreshStays(w, w', w'', root, own, v, hi, f, At(PageAt(start, k), 1), frames[k]);
    }
  }

  /** Pages outside the range and the window are still mapped as before. */
  lemma MoreKept(w: World, w': World, w'': World, root: nat, start: nat, frames: seq<nat>, lo: nat, v: nat, hi: nat,
                 f: nat, n: Node)
    requires Allocated(w, w', root, start, frames, lo, hi) && lo <= v && start % PAGE_SIZE == 0
    requires TakesFrame(w', w'', root, At(PageAt(start, |frames|), 1), v, hi, f)
    requires n.level == 1 && !(start <= n.First() < PageAt(start, |frames| + 1)) && !(lo <= n.First() < hi)
    ensures SameSlot(w.tree, w''.tree, n)
  {
    AtPage(start, |frames|);
    assert SameSlot(w.tree, w'.tree, n) && SameSlot(w'.tree, w''.tree, n);
  }

  /** One more page of a range. */
  lemma OneMore(w: World, w': World, w'': World, root: nat, start: nat, frames: seq<nat>, lo: nat, v: nat, hi: nat,
                f: nat)
    requires Allocated(w, w', root, start, frames, lo, hi) && lo <= v && start % PAGE_SIZE == 0
    requires TakesFrame(w', w'', root, At(PageAt(start, |frames|), 1), v, hi, f)
    requires Distinct(w'.list) && Owns(w'.pages, root)
    requires PageAt(start, |frames| + 1) <= lo || hi <= start
    ensures Allocated(w, w'', root, start, frames + [f], lo, hi)
  {
    OtherMemoryStays(w, w', w'', root, At(PageAt(start, |frames|), 1), v, hi, f);
    forall k | 0 <= k < |frames + [f]|
      ensures Fresh(w, w'', At(PageAt(start, k), 1), (frames + [f])[k])
    {
      MoreFresh(w, w', w'', root, start, frames, lo, v, hi, f, k);
    }
    forall n: Node | n.level == 1 && !(start <= n.First() < PageAt(start, |frames| + 1)) && !(lo <= n.First() < hi)
      ensures SameSlot(w.tree, w''.tree, n)
    {
      MoreKept(w, w', w'', root, start, frames, lo, v, hi, f, n);
    }
    assert w''.list == w.list[|w.list| - |w''.list|..];
    RestElements(w'.list, w.list);
  }

  lemma NextAligned(a: nat)
    requires a % PAGE_SIZE == 0
    ensures (a + PAGE_SIZE) % PAGE_SIZE == 0
  {
  }

  /** Mapping later addresses of the window leaves the page at an earlier one. */
  lemma FirstStays(t: Tree, t': Tree, v: nat, v1: nat, hi: nat)
    requires PagesKept(t, t', At(v1, 1), v1, hi) && v % PAGE_SIZE == 0 && v1 >= v + PAGE_SIZE && v1 % PAGE_SIZE == 0
    ensures SameSlot(t, t', At(v, 1))
  {
    AtPage(v, 0);
    AtPage(v1, 0);
    assert At(v, 1).First() == v && At(v1, 1).First() == v1;
  }

  /** A lowest table has tables above it. */
  lemma AbovePath(t: Tree, a: nat)
    requires Closed(t)
    ensures At(a, 2) in t ==> At(a, 3) in t
    ensures At(a, 3) in t ==> At(a, 4) in t
  {
    AtParent(a, 2);
    AtParent(a, 3);
  }

  ghost predicate MapsTo(t: Tree, n: Node, frame: nat) {
    n in t && t[n] == Leaf(frame)
  }

  /** Between the steps of add_pte: only the page and the window are mapped differently, more prefixes have a lowest
      table if tables were added, and once `done`, a page outside the window is mapped to the frame. */
  ghost predicate Grew(w: World, w': World, root: nat, own: Node, lo: nat, hi: nat, frame: nat, more: bool,
                       done: bool) {
    && Advances(w, w', root, own, lo, hi) && Lacking(w'.tree) <= Lacking(w.tree)
    && (more ==> Lacking(w'.tree) < Lacking(w.tree))
    && (done && !(lo <= own.First() < hi) ==> MapsTo(w'.tree, own, frame))
  }

  lemma GrowsNot(w: World, root: nat, own: Node, lo: nat, hi: nat, frame: nat)
    requires root < |w.mem|
    ensures Grew(w, w, root, own, lo, hi, frame, false, false)
  {
    AdvancesNot(w, root, own, lo, hi);
  }

  lemma GrowsOnce(w: World, w': World, root: nat, own: Node, lo: nat, hi: nat, frame: nat, more: bool, ok: bool)
    requires Advances(w, w', root, own, 0, 0) && Lacking(w'.tree) <= Lacking(w.tree)
    requires ok && more ==> Lacking(w'.tree) < Lacking(w.tree)
    requires ok ==> MapsTo(w'.tree, own, frame)
    ensures Grew(w, w', root, own, lo, hi, frame, ok && more, ok)
  {
  }

  lemma GrowsMore(w: World, w': World, w'': World, root: nat, own: Node, lo: nat, v: nat, hi: nat, frame: nat,
                  more: bool)
    requires Grew(w, w', root, own, lo, hi, frame, more, true) && lo <= v && v % PAGE_SIZE == 0 && own.level == 1
    requires Advances(w', w'', root, At(v, 1), v, hi) && Lacking(w''.tree) <= Lacking(w'.tree)
    requires v >= hi ==> w'' == w'
    ensures Grew(w, w'', root, own, lo, hi, frame, more, true)
  {
  }

  lemma StepGrows(w: World, w': World, w'': World, root: nat, c: Node, own: Node)
    requires w' == w || Advances(w, w', root, own, 0, 0)
    requires Advances(w', w'', root, c, 0, 0) && c.level != 1
    ensures Advances(w, w'', root, own, 0, 0) && Lacking(w''.tree) <= Lacking(w.tree)
  {
  }

  /** Adding tables on the way to an address gives its prefix a lowest table. */
  lemma LackingFalls(t: Tree, t': Tree, a: nat)
    requires Closed(t) && Lacking(t') <= Lacking(t) && a < LIMIT && At(a, 2) in t' && t'[At(a, 2)].Table?
    requires At(a, 4) !in t || At(a, 3) !in t || At(a, 2) !in t
    ensures Lacking(t') < Lacking(t)
  {
    AtParent(a, 2);
    AtParent(a, 3);
    var p := At(a, 2).idx;
    assert p < PREFIXES && Node(2, p) == At(a, 2);
    assert p in Lacking(t) && p !in Lacking(t');
  }

  /** The slots of the tables on the way down to a page. */
  lemma PathSlots(a: nat)
    requires a < LIMIT
    ensures forall l | 1 <= l <= 4 :: At(a, l).End() <= LIMIT && Over(a, l) % SLOTS < SLOTS
    ensures forall l | 1 <= l <= 4 :: Child(if l == 4 then ROOT else At(a, l + 1), Over(a, l) % SLOTS) == At(a, l)
  {
    forall l | 1 <= l <= 4
      ensures At(a, l).End() <= LIMIT && Over(a, l) % SLOTS < SLOTS
      ensures Child(if l == 4 then ROOT else At(a, l + 1), Over(a, l) % SLOTS) == At(a, l)
    {
      AtLimit(a, l);
      ChildAt(a, l);
    }
  }

  lemma LeafAdvances(w: World, root: nat, n: Node, p: nat, e: nat, f: nat, w': World)
    requires Represent(w.mem, w.tree, w.pages, root) && n in w.pages && n.level == 2 && e < SLOTS && p == w.pages[n]
    requires w'.mem == Written(w.mem, p, e, Pte(f))
    requires w'.tree == w.tree[Child(n, e) := Leaf(f)] && w'.pages == w.pages && w'.list == w.list
    ensures Advances(w, w', root, Child(n, e), 0, 0)
  {
    assert ROOT in w.pages && ROOT != n;
    forall m: Node | m.level == 1 && m != Child(n, e) ensures SameSlot(w.tree, w'.tree, m) {}
  }

  /** A root table with nothing but system entries represents the empty tree. */
  lemma RootOnly(mem: Memory, root: nat)
    requires root < |mem| && forall f :: 0 <= f < |mem| ==> |mem[f]| == SLOTS
    requires forall e :: 0 <= e < SLOTS ==> mem[root][e] == 0 || IsSystem(mem[root][e])
    ensures Represent(mem, map[], map[ROOT := root], root)
  {
  }

  // ----- Unmapping -----

  /** Small pages lie in lowest tables, and these in tables at every level above. */
  lemma PathTables(t: Tree, a: nat)
    requires Closed(t) && SmallLeaves(t)
    ensures At(a, 1) in t ==> At(a, 2) in t && t[At(a, 1)].Leaf? && t[At(a, 1)].typ >= 0
    ensures At(a, 2) in t ==> forall l | 2 <= l <= 4 :: At(a, l) in t && t[At(a, l)].Table?
  {
    AtParent(a, 1);
    AbovePath(t, a);
  }

  /** The slots on the way down to a lowest table lead to tables. */
  lemma TablePath(t: Tree, a: nat)
    requires Closed(t) && SmallLeaves(t) && a < LIMIT && At(a, 2) in t
    ensures forall l | 2 <= l <= 4 :: At(a, l) in t && t[At(a, l)].Table? && Over(a, l) % SLOTS < SLOTS
    ensures At(a, 4) == Child(ROOT, Over(a, 4) % SLOTS)
    ensures At(a, 3) == Child(At(a, 4), Over(a, 3) % SLOTS) && At(a, 2) == Child(At(a, 3), Over(a, 2) % SLOTS)
  {
    PathTables(t, a);
    PathSlots(a);
    ChildAt(a, 4);
    ChildAt(a, 3);
    ChildAt(a, 2);
  }

  /** A page of the lowest table is unmapped. */
  lemma ClearLeaf(mem: Memory, tree: Tree, pages: map<Node, nat>, root: nat, n: Node, e: nat)
    requires Represent(mem, tree, pages, root) && n in pages && n.level == 2 && e < SLOTS
    ensures var p := pages[n];
      && Represent(Written(mem, p, e, 0), tree - {Child(n, e)}, pages, root)
      && MemoryKept(mem, Written(mem, p, e, 0), pages, root)
  {
    var c, p := Child(n, e), pages[n];
    var mem', tree' := Written(mem, p, e, 0), tree - {c};
    assert ROOT in pages && ROOT != n;
    forall m, k | m in pages && 0 <= k < SLOTS
      ensures EntryAt(mem', tree', pages, m, k)
    {
      assert EntryAt(mem, tree, pages, m, k);
      if Child(m, k) == c { ChildInjective(m, k, n, e); }
    }
  }

  // ----- Unmapping a range -----

  /** Between the trees exactly the pages of the range, k of them, were unmapped. */
  ghost predicate Freed(t: Tree, t': Tree, start: nat, k: nat) {
    forall n: Node ::
      && (n in t' <==> n in t && !(n.level == 1 && start <= n.First() < PageAt(start, k)))
      && (n in t' ==> t'[n] == t[n])
  }

  lemma FreedNone(t: Tree, start: nat)
    ensures Freed(t, t, start, 0)
  {
  }

  /** The pages of a range are those that start in it. */
  lemma PageIs(start: nat, k: nat, n: Node)
    requires start % PAGE_SIZE == 0 && n.level == 1
    ensures n == At(PageAt(start, k), 1) <==> PageAt(start, k) <= n.First() < PageAt(start, k + 1)
  {
    AtPage(start, k);
    assert PageAt(start, k + 1) == PageAt(start, k) + PAGE_SIZE;
    if PageAt(start, k) <= n.First() < PageAt(start, k + 1) {
      SameIndex(n.idx, At(PageAt(start, k), 1).idx);
    }
  }

  lemma SameIndex(i: nat, j: nat)
    requires j * PAGE_SIZE <= i * PAGE_SIZE < j * PAGE_SIZE + PAGE_SIZE
    ensures i == j
  {
  }

  lemma FreedMore(t: Tree, t': Tree, t'': Tree, start: nat, k: nat)
    requires start % PAGE_SIZE == 0 && Freed(t, t', start, k) && t'' == t' - {At(PageAt(start, k), 1)}
    ensures Freed(t, t'', start, k + 1)
  {
    forall n: Node
      ensures n in t'' <==> n in t && !(n.level == 1 && start <= n.First() < PageAt(start, k + 1))
    {
      if n.level == 1 { PageIs(start, k, n); }
    }
  }

  /** Unmapping one page of a range leaves the later ones mapped. */
  lemma StillMapped(t: Tree, t': Tree, start: nat, frames: seq<nat>, k: nat)
    requires start % PAGE_SIZE == 0 && t' == t - {At(PageAt(start, k), 1)}
    requires forall j :: k <= j < |frames| ==> MapsTo(t, At(PageAt(start, j), 1), frames[j])
    ensures forall j :: k + 1 <= j < |frames| ==> MapsTo(t', At(PageAt(start, j), 1), frames[j])
  {
    forall j | k + 1 <= j < |frames|
      ensures MapsTo(t', At(PageAt(start, j), 1), frames[j])
    {
      assert MapsTo(t, At(PageAt(start, j), 1), frames[j]);
      AtPage(start, j);
      AtPage(start, k);
    }
  }

  lemma MemoryKeptTwice(m: Memory, m': Memory, m'': Memory, pages: map<Node, nat>, root: nat)
    requires MemoryKept(m, m', pages, root) && MemoryKept(m', m'', pages, root)
    ensures MemoryKept(m, m'', pages, root)
  {
  }

  /** The list after these frames were put to its front, one after the other. */
  function Returned(frames: seq<nat>, list: seq<nat>): seq<nat> {
    if frames == [] then list else [frames[|frames| - 1]] + Returned(frames[..|frames| - 1], list)
  }

  /** One more frame at the front. */
  lemma ReturnedMore(frames: seq<nat>, list: seq<nat>, k: nat)
    requires k < |frames|
    ensures Returned(frames[..k + 1], list) == [frames[k]] + Returned(frames[..k], list)
  {
    assert frames[..k + 1][..k] == frames[..k];
  }

  /** page_free after page_alloc leaves every page outside the window mapped as it was, if the range was not mapped
      before. */
  lemma FreeUndoesAlloc(w: World, w': World, root: nat, start: nat, frames: seq<nat>, lo: nat, hi: nat, t: Tree,
                        n: Node)
    requires Allocated(w, w', root, start, frames, lo, hi) && Freed(w'.tree, t, start, |frames|)
    requires n.level == 1 && !(lo <= n.First() < hi)
    requires start <= n.First() < PageAt(start, |frames|) ==> n !in w.tree
    ensures SameSlot(w.tree, t, n)
  {
    if !(start <= n.First() < PageAt(start, |frames|)) { assert SameSlot(w.tree, w'.tree, n); }
  }

  // ----- What the processor makes of it -----

  datatype Place = NotPresent | Mapped(phys: nat)

  /** A page walk from the table in frame p, whose entries are of this level (section 4.5 of the Intel SDM, Volume
      3A). */
  ghost function WalkFrames(mem: Memory, p: nat, a: nat, level: nat): Place
    requires p < |mem| && (forall f :: 0 <= f < |mem| ==> |mem[f]| == SLOTS) && 1 <= level <= 4
    decreases level
  {
    var pte := mem[p][Over(a, level) % SLOTS];
    if pte % 2 == 0 then NotPresent
    else if level == 1 || (level <= 3 && pte / PS_FLAG % 2 == 1) then Mapped(pte - Rem(pte, level) + Rem(a, level))
    else if pte / PAGE_SIZE >= |mem| then NotPresent
    else WalkFrames(mem, pte / PAGE_SIZE, a, level - 1)
  }

  /** The bits that a walk looks at. */
  lemma WalkBits(f: nat)
    ensures var pte := Pte(f);
      pte % 2 == 1 && pte / PS_FLAG % 2 == 0 && pte / PAGE_SIZE == f && pte - Rem(pte, 1) == f * PAGE_SIZE
  {
    var pte := Pte(f);
    assert pte == 2 * (f * 2048 + 1) + 1;
    assert pte == PS_FLAG * (2 * (16 * f)) + PRESENT_RW;
    Doubled(16 * f);
    assert pte / PS_FLAG == 2 * (16 * f);
  }

  /** In a tree of small pages a walk finds what the slot of the page says. */
  lemma WalkByPage(t: Tree, a: nat, level: nat)
    requires Closed(t) && SmallLeaves(t) && 1 <= level <= 4
    ensures WalkFrom(t, a, level) == if At(a, 1) in t && t[At(a, 1)].Leaf? then Page(1, t[At(a, 1)].typ) else Nothing
    decreases level
  {
  }

  /** The slots above a slot of the tree are tables. */
  lemma InTree(t: Tree, a: nat, level: nat)
    requires Closed(t) && 2 <= level <= 4 && At(a, 1) in t
    ensures At(a, level) in t && t[At(a, level)].Table?
    decreases level
  {
  }

  /** The processor's walk finds the frame of the page, or nothing. */
  lemma {:induction false} WalkAgrees(mem: Memory, tree: Tree, pages: map<Node, nat>, root: nat, n: Node, a: nat,
                                      level: nat)
    requires Represent(mem, tree, pages, root) && 1 <= level <= 4 && a < LIMIT
    requires n in pages && n == if level == 4 then ROOT else At(a, level + 1)
    requires level == 4 ==> !IsSystem(mem[root][Over(a, 4) % SLOTS])
    ensures WalkFrames(mem, pages[n], a, level) == Seen(WalkFrom(tree, a, level), a)
    decreases level
  {
    ChildAt(a, level);
    var e, c := Over(a, level) % SLOTS, At(a, level);
    assert EntryAt(mem, tree, pages, n, e);
    if c in tree {
      if tree[c].Table? {
        WalkBits(pages[c]);
        WalkAgrees(mem, tree, pages, root, c, a, level - 1);
      } else {
        WalkBits(tree[c].typ);
      }
    }
  }

  function Seen(found: Found, a: nat): Place {
    match found
    case Nothing => NotPresent
    case Page(_, f) => Mapped((if f < 0 then 0 else f) * PAGE_SIZE + Rem(a, 1))
  }

  /** Every entry that a walk for this address reads, from the table in frame p on, allows writing, for the supervisor
      only. */
  ghost predicate WritablePath(mem: Memory, p: nat, a: nat, level: nat)
    requires p < |mem| && (forall f :: 0 <= f < |mem| ==> |mem[f]| == SLOTS) && 1 <= level <= 4
    decreases level
  {
    var pte := mem[p][Over(a, level) % SLOTS];
    && pte % 2 == 1 && pte / 0x2 % 2 == 1 && pte / 0x4 % 2 == 0
    && (level == 1 || (level <= 3 && pte / 0x80 % 2 == 1)
        || (pte / 0x1000 < |mem| && WritablePath(mem, pte / 0x1000, a, level - 1)))
  }

  lemma RightsBits(f: nat)
    ensures Pte(f) / 0x2 % 2 == 1 && Pte(f) / 0x4 % 2 == 0
  {
    assert Pte(f) / 0x2 == 2 * (1024 * f) + 1;
    assert Pte(f) / 0x4 == 2 * (512 * f);
    Doubled(1024 * f);
    Doubled(512 * f);
  }

  /** The way to a page of the tree allows writing. */
  lemma {:induction false} PathWritable(mem: Memory, tree: Tree, pages: map<Node, nat>, root: nat, n: Node, a: nat,
                                        level: nat)
    requires Represent(mem, tree, pages, root) && 1 <= level <= 4 && a < LIMIT
    requires n in pages && n == if level == 4 then ROOT else At(a, level + 1)
    requires At(a, 1) in tree && tree[At(a, 1)].Leaf?
    ensures WritablePath(mem, pages[n], a, level)
    decreases level
  {
    ChildAt(a, level);
    var e, c := Over(a, level) % SLOTS, At(a, level);
    assert EntryAt(mem, tree, pages, n, e);
    if level == 1 {
      WalkBits(tree[c].typ);
      RightsBits(tree[c].typ);
    } else {
      InTree(tree, a, level);
      WalkBits(pages[c]);
      RightsBits(pages[c]);
      PathWritable(mem, tree, pages, root, c, a, level - 1);
    }
  }

  /** The entry of the root table over an address. */
  ghost function RootEntry(mem: Memory, root: nat, a: nat): nat
    requires root < |mem| && |mem[root]| == SLOTS
  {
    mem[root][Over(a, 4) % SLOTS]
  }

  /** An address of a mapped page translates into the page's frame. */
  lemma PageTranslates(mem: Memory, tree: Tree, pages: map<Node, nat>, root: nat, x: nat, f: nat)
    requires Represent(mem, tree, pages, root) && MapsTo(tree, At(x, 1), f) && x < LIMIT
    ensures WalkFrames(mem, root, x, 4) == Mapped(f * PAGE_SIZE + Rem(x, 1))
  {
    ChildAt(x, 4);
    InTree(tree, x, 4);
    assert EntryAt(mem, tree, pages, ROOT, Over(x, 4) % SLOTS);
    WalkAgrees(mem, tree, pages, root, ROOT, x, 4);
    WalkByPage(tree, x, 4);
  }

  lemma PageRem(start: nat, k: nat, x: nat)
    requires start % PAGE_SIZE == 0 && PageAt(start, k) <= x < PageAt(start, k) + PAGE_SIZE
    ensures Rem(x, 1) == x - PageAt(start, k) && At(x, 1) == At(PageAt(start, k), 1)
  {
    AtPage(start, k);
    AtUnique(x, At(PageAt(start, k), 1));
  }

  /** After page_alloc every address of the range translates into the page's own frame, which is cleared, and may be
      written. */
  lemma AllocatedTranslates(w: World, w': World, root: nat, start: nat, frames: seq<nat>, lo: nat, hi: nat, k: nat,
                            x: nat)
    requires Allocated(w, w', root, start, frames, lo, hi) && Represent(w'.mem, w'.tree, w'.pages, root)
    requires k < |frames| && start % PAGE_SIZE == 0 && PageAt(start, k) <= x < PageAt(start, k) + PAGE_SIZE && x < LIMIT
    ensures WalkFrames(w'.mem, root, x, 4) == Mapped(frames[k] * PAGE_SIZE + (x - PageAt(start, k)))
    ensures WritablePath(w'.mem, root, x, 4)
    ensures w'.mem[frames[k]] == ZeroPage() && frames[k] in w.list
    ensures forall j :: 0 <= j < |frames| && j != k ==> frames[j] != frames[k]
  {
    PageRem(start, k, x);
    assert Fresh(w, w', At(x, 1), frames[k]);
    PageTranslates(w'.mem, w'.tree, w'.pages, root, x, frames[k]);
    PathWritable(w'.mem, w'.tree, w'.pages, root, ROOT, x, 4);
  }

  /** Every other address that is no system address translates as before. */
  lemma OthersTranslate(w: World, w': World, root: nat, start: nat, frames: seq<nat>, lo: nat, hi: nat, x: nat)
    requires Allocated(w, w', root, start, frames, lo, hi)
    requires Represent(w.mem, w.tree, w.pages, root) && Represent(w'.mem, w'.tree, w'.pages, root)
    requires var a := At(x, 1).First(); !(start <= a < PageAt(start, |frames|)) && !(lo <= a < hi)
    requires x < LIMIT && !IsSystem(RootEntry(w.mem, root, x))
    ensures WalkFrames(w'.mem, root, x, 4) == WalkFrames(w.mem, root, x, 4)
  {
    assert SameSlot(w.tree, w'.tree, At(x, 1));
    WalkAgrees(w.mem, w.tree, w.pages, root, ROOT, x, 4);
    WalkAgrees(w'.mem, w'.tree, w'.pages, root, ROOT, x, 4);
    WalkByPage(w.tree, x, 4);
    WalkByPage(w'.tree, x, 4);
  }

  /** A walk that reads no available frame and no table of this address space. */
  ghost predicate Avoids(w: World, p: nat, a: nat, level: nat)
    requires p < |w.mem| && (forall f :: 0 <= f < |w.mem| ==> |w.mem[f]| == SLOTS) && 1 <= level <= 4
    decreases level
  {
    && p !in w.list && !Owns(w.pages, p)
    && var pte := w.mem[p][Over(a, level) % SLOTS];
       (pte % 2 == 0 || level == 1 || (level <= 3 && pte / PS_FLAG % 2 == 1) || pte / PAGE_SIZE >= |w.mem|
        || Avoids(w, pte / PAGE_SIZE, a, level - 1))
  }

  lemma {:induction false} AvoidedWalk(w: World, w': World, root: nat, p: nat, a: nat, level: nat)
    requires OtherMemoryKept(w, w', root) && p < |w.mem| && 1 <= level <= 4
    requires forall f :: 0 <= f < |w.mem| ==> |w.mem[f]| == SLOTS
    requires forall f :: 0 <= f < |w'.mem| ==> |w'.mem[f]| == SLOTS
    requires Avoids(w, p, a, level)
    ensures WalkFrames(w'.mem, p, a, level) == WalkFrames(w.mem, p, a, level)
    decreases level
  {
  }

  /** System addresses translate as before, through the kernel's own tables, which are not written. */
  lemma SystemTranslates(w: World, w': World, root: nat, start: nat, frames: seq<nat>, lo: nat, hi: nat, x: nat)
    requires Allocated(w, w', root, start, frames, lo, hi)
    requires Represent(w.mem, w.tree, w.pages, root) && Represent(w'.mem, w'.tree, w'.pages, root)
    requires var pte := RootEntry(w.mem, root, x);
      IsSystem(pte) && (pte / PAGE_SIZE < |w.mem| ==> Avoids(w, pte / PAGE_SIZE, x, 3))
    ensures RootEntry(w'.mem, root, x) == RootEntry(w.mem, root, x)
    ensures WalkFrames(w'.mem, root, x, 4) == WalkFrames(w.mem, root, x, 4)
  {
    var pte := RootEntry(w.mem, root, x);
    if pte / PAGE_SIZE < |w.mem| { AvoidedWalk(w, w', root, pte / PAGE_SIZE, x, 3); }
  }

  /** After page_free no address of the range translates. */
  lemma FreedTranslates(mem: Memory, tree: Tree, pages: map<Node, nat>, root: nat, was: Tree, start: nat, count: nat,
                        x: nat)
    requires Represent(mem, tree, pages, root) && Freed(was, tree, start, count)
    requires x < LIMIT && start <= At(x, 1).First() < PageAt(start, count) && !IsSystem(RootEntry(mem, root, x))
    ensures WalkFrames(mem, root, x, 4) == NotPresent
  {
    WalkAgrees(mem, tree, pages, root, ROOT, x, 4);
    WalkByPage(tree, x, 4);
  }
}
