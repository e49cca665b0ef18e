/** The kernel's page table as part of every address space: its pages lie in page frames that are never listed. */
module KernelSpace {
  import opened Common
  import opened PageTree
  import opened PMapRegions
  import opened PMapNormal
  import opened PageMap
  import Frames
  import Growth
  import KMem

  const KERNEL_FRAME := 0x20                            // KMEM_KERNEL_PAGETABLE / PAGE_SIZE
  const KERNEL_FRAMES_END := KERNEL_FRAME + KMem.TABLE_PAGES
  const KERNEL_END := 0xa00                             // KMEM_KERNEL_IMAGE_END / PAGE_SIZE

  /** The kernel's tree of mappings, and which of its pages holds which table. */
  datatype Kernel = Kernel(tree: Tree, pages: map<Node, nat>, used: nat)

  ghost predicate Sound(k: Kernel) {
    KMem.Placed(k.tree, k.pages, k.used) && Closed(k.tree)
  }

  /** The frames of the kernel's pages hold what represents the tree. */
  ghost predicate InFrames(mem: Growth.Memory, k: Kernel)
    requires Sound(k)
  {
    && KERNEL_FRAMES_END <= |mem| && (forall f :: 0 <= f < |mem| ==> |mem[f]| == SLOTS)
    && forall n, e :: n in k.pages && 0 <= e < SLOTS ==>
         mem[KERNEL_FRAME + k.pages[n]][e] == KMem.Encoded(k.tree, k.pages, Child(n, e))
  }

  /** The kernel's pages are neither available nor tables of another address space. */
  ghost predicate Apart(w: Growth.World) {
    forall p :: KERNEL_FRAME <= p < KERNEL_FRAMES_END ==> p !in w.list && !Growth.Owns(w.pages, p)
  }

  /** A list of frames outside the kernel's memory keeps them apart, as long as tables are in listed frames. */
  ghost predicate AboveKernel(w: Growth.World) {
    (forall p :: p in w.list ==> p >= KERNEL_END) && (forall n :: n in w.pages ==> w.pages[n] >= KERNEL_END)
  }

  lemma AboveIsApart(w: Growth.World)
    requires AboveKernel(w)
    ensures Apart(w)
  {
  }

  // ----- The processor's walk through the kernel's pages -----

  /** The bits of an entry that points to a table. */
  lemma TableEntry(q: nat, e: nat)
    requires e == KMem.KMEM_KERNEL_PAGETABLE + q * PAGE_SIZE + KMem.TABLE_FLAGS
    ensures e % 2 == 1 && e / KMem.PS_FLAG % 2 == 0 && e / PAGE_SIZE == KERNEL_FRAME + q && Growth.IsSystem(e)
  {
    KMem.PointerDecodes(q);
    Division(KERNEL_FRAME + q, KMem.TABLE_FLAGS);
    SystemBit(0x80 + 4 * q);
  }

  /** The bits of a leaf entry. */
  lemma LeafEntry(a: nat, level: nat, typ: int, e: nat)
    requires 1 <= level <= 3 && e == At(a, level).First() + KMem.LeafFlags(level, typ)
    ensures e % 2 == 1 <==> Mappable(typ)
    ensures Mappable(typ) && level > 1 ==> e / KMem.PS_FLAG % 2 == 1
    ensures e - Rem(e, level) + Rem(a, level) == a
  {
    KMem.LeafDecodes(a, level, typ);
  }

  lemma Division(k: nat, r: nat)
    requires r < PAGE_SIZE
    ensures (PAGE_SIZE * k + r) / PAGE_SIZE == k
  {
  }

  lemma SystemBit(k: nat)
    ensures Growth.IsSystem(0x400 * k + KMem.TABLE_FLAGS)
  {
  }

  /** What a walk of the frames makes of what the tree has for an address. */
  function PlaceOf(found: Found, a: nat): Growth.Place {
    match found
    case Nothing => Growth.NotPresent
    case Page(_, typ) => if Mappable(typ) then Growth.Mapped(a) else Growth.NotPresent
  }

  /** The entry over an address in the table at node n, and what its bits say. */
  ghost predicate EntrySays(pte: nat, k: Kernel, a: nat, level: nat)
    requires 1 <= level <= 4
  {
    var c := At(a, level);
    if c !in k.tree then pte == 0
    else if k.tree[c].Table? then
      c in k.pages && pte % 2 == 1 && pte / KMem.PS_FLAG % 2 == 0 && pte / PAGE_SIZE == KERNEL_FRAME + k.pages[c]
    else if Mappable(k.tree[c].typ) then
      pte % 2 == 1 && level <= 3 && (level > 1 ==> pte / KMem.PS_FLAG % 2 == 1)
        && pte - Rem(pte, level) + Rem(a, level) == a
    else pte % 2 == 0
  }

  lemma KernelEntry(mem: Growth.Memory, k: Kernel, n: Node, a: nat, level: nat)
    requires Sound(k) && InFrames(mem, k) && 1 <= level <= 4 && a < LIMIT
    requires n in k.pages && n == if level == 4 then ROOT else At(a, level + 1)
    ensures KERNEL_FRAME + k.pages[n] < KERNEL_FRAMES_END
    ensures EntrySays(mem[KERNEL_FRAME + k.pages[n]][Over(a, level) % SLOTS], k, a, level)
  {
    ChildAt(a, level);
    var c, e := At(a, level), Over(a, level) % SLOTS;
    assert mem[KERNEL_FRAME + k.pages[n]][e] == KMem.Encoded(k.tree, k.pages, c);
    if c in k.tree {
      if k.tree[c].Table? {
        TableEntry(k.pages[c], mem[KERNEL_FRAME + k.pages[n]][e]);
      } else {
        LeafEntry(a, level, k.tree[c].typ, mem[KERNEL_FRAME + k.pages[n]][e]);
      }
    }
  }

  lemma TableBelow(k: Kernel, c: Node, a: nat, level: nat)
    requires Sound(k) && 1 <= level <= 4 && c == At(a, level) && c in k.tree && k.tree[c].Table?
    ensures level >= 2 && c in k.pages && KERNEL_FRAME + k.pages[c] < KERNEL_FRAMES_END
  {
  }

  /** A walk from one of the kernel's pages finds what the kernel's tree says. */
  lemma {:induction false} KernelWalk(mem: Growth.Memory, k: Kernel, n: Node, a: nat, level: nat)
    requires Sound(k) && InFrames(mem, k) && 1 <= level <= 4 && a < LIMIT
    requires n in k.pages && n == if level == 4 then ROOT else At(a, level + 1)
    ensures Growth.WalkFrames(mem, KERNEL_FRAME + k.pages[n], a, level) == PlaceOf(WalkFrom(k.tree, a, level), a)
    decreases level
  {
    KernelEntry(mem, k, n, a, level);
    var c, p := At(a, level), KERNEL_FRAME + k.pages[n];
    var pte := mem[p][Over(a, level) % SLOTS];
    if c in k.tree && k.tree[c].Table? {
      TableBelow(k, c, a, level);
      KernelWalk(mem, k, c, a, level - 1);
      assert Growth.WalkFrames(mem, p, a, level) == Growth.WalkFrames(mem, pte / PAGE_SIZE, a, level - 1);
    }
  }

  /** It stays within the kernel's pages. */
  lemma {:induction false} KernelAvoids(w: Growth.World, k: Kernel, n: Node, a: nat, level: nat)
    requires Sound(k) && InFrames(w.mem, k) && Apart(w) && 1 <= level <= 4 && a < LIMIT
    requires n in k.pages && n == if level == 4 then ROOT else At(a, level + 1)
    ensures Growth.Avoids(w, KERNEL_FRAME + k.pages[n], a, level)
    decreases level
  {
    KernelEntry(w.mem, k, n, a, level);
    var c, p := At(a, level), KERNEL_FRAME + k.pages[n];
    assert p !in w.list && !Growth.Owns(w.pages, p);
    var pte := w.mem[p][Over(a, level) % SLOTS];
    if c in k.tree && k.tree[c].Table? {
      TableBelow(k, c, a, level);
      KernelAvoids(w, k, c, a, level - 1);
      assert Growth.Avoids(w, pte / PAGE_SIZE, a, level - 1);
    }
  }

  // ----- The kernel's memory in every address space -----

  /** The entries of the kernel's root table are empty or system entries, as pagetable_create needs them. */
  lemma RootEntries(mem: Growth.Memory, k: Kernel, e: nat)
    requires Sound(k) && InFrames(mem, k) && e < SLOTS
    ensures mem[KERNEL_FRAME][e] == 0 || Growth.IsSystem(mem[KERNEL_FRAME][e])
  {
    assert ROOT in k.pages && k.pages[ROOT] == 0;
    var c := Child(ROOT, e);
    assert mem[KERNEL_FRAME + k.pages[ROOT]][e] == KMem.Encoded(k.tree, k.pages, c);
    if c in k.tree { TableEntry(k.pages[c], mem[KERNEL_FRAME][e]); }
  }

  /** An address space's root table has the kernel's entry for an address. */
  ghost predicate Shares(mem: Growth.Memory, root: nat, a: nat)
    requires root < |mem| && KERNEL_FRAME < |mem| && |mem[root]| == |mem[KERNEL_FRAME]| == SLOTS
  {
    Growth.RootEntry(mem, root, a) == Growth.RootEntry(mem, KERNEL_FRAME, a)
  }

  /** In such an address space the address translates as in the kernel's own. */
  lemma SharedWalk(w: Growth.World, k: Kernel, root: nat, a: nat)
    requires Sound(k) && InFrames(w.mem, k) && Apart(w) && a < LIMIT && root < |w.mem| && Shares(w.mem, root, a)
    ensures Growth.WalkFrames(w.mem, root, a, 4) == PlaceOf(WalkFrom(k.tree, a, 4), a)
    ensures var pte := Growth.RootEntry(w.mem, root, a);
      pte % 2 == 1 && pte / PAGE_SIZE < |w.mem| ==> Growth.Avoids(w, pte / PAGE_SIZE, a, 3)
  {
    KernelWalk(w.mem, k, ROOT, a, 4);
    KernelAvoids(w, k, ROOT, a, 4);
  }
}
