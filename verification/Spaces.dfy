/** Several address spaces on one frame database, and the kernel's part of each of them. */
module Spaces {
  import opened Common
  import opened PageTree
  import opened PMapRegions
  import opened PMapNormal
  import opened PageMap
  import opened Frames
  import opened Growth
  import KMem
  import K = KernelSpace
  import P = Paging

  /** An address space: its mappings, the frames of its tables, and the frame of its root table. */
  datatype Space = Space(tree: Tree, pages: map<Node, nat>, root: nat)

  /** An address space beside that of w: its tables are in frames that are neither available nor tables of w. */
  ghost predicate Beside(w: World, s: Space) {
    && Represent(w.mem, s.tree, s.pages, s.root)
    && forall n :: n in s.pages ==> s.pages[n] !in w.list && !Owns(w.pages, s.pages[n])
  }

  /** What page_free does to the world of its address space, when it gives these frames back. */
  ghost predicate GivesBack(w: World, w': World, root: nat, frames: seq<nat>) {
    w'.pages == w.pages && MemoryKept(w.mem, w'.mem, w.pages, root) && w'.list == Returned(frames, w.list)
  }

  /** A call of page_alloc or page_free. */
  datatype Call = Alloc(start: nat, frames: seq<nat>, lo: nat, hi: nat) | Free(frames: seq<nat>)

  ghost predicate Made(w: World, c: Call, w': World, root: nat) {
    && Represent(w.mem, w.tree, w.pages, root) && Represent(w'.mem, w'.tree, w'.pages, root)
    && match c
       case Alloc(start, frames, lo, hi) => Allocated(w, w', root, start, frames, lo, hi)
       case Free(frames) => GivesBack(w, w', root, frames)
  }

  /** No frame that is given back is a table of s. */
  ghost predicate FreesNone(c: Call, s: Space) {
    c.Free? ==> forall f :: f in c.frames ==> !Owns(s.pages, f)
  }

  lemma {:induction false} ReturnedElements(frames: seq<nat>, list: seq<nat>, f: nat)
    ensures f in Returned(frames, list) <==> f in frames || f in list
  {
    if frames != [] {
      var front := frames[..|frames| - 1];
      ReturnedElements(front, list, f);
      assert frames == front + [frames[|frames| - 1]];
    }
  }

  /** Either call writes only tables of its own address space and frames that were available. */
  lemma CallWrites(w: World, c: Call, w': World, root: nat)
    requires Made(w, c, w', root)
    ensures OtherMemoryKept(w, w', root)
    ensures forall f :: Owns(w'.pages, f) ==> Owns(w.pages, f) || f in w.list
    ensures forall f :: f in w'.list ==> f in w.list || (c.Free? && f in c.frames)
  {
    match c
    case Alloc(start, frames, lo, hi) =>
      RestElements(w'.list, w.list);
      forall f | Owns(w'.pages, f)
        ensures Owns(w.pages, f) || f in w.list
      {
        var n :| n in w'.pages && w'.pages[n] == f;
      }
    case Free(frames) =>
      forall f | f in w'.list
        ensures f in w.list || f in frames
      {
        ReturnedElements(frames, w.list, f);
      }
  }

  /** Frames with the same contents say the same. */
  lemma SameTables(mem: Memory, mem': Memory, s: Space)
    requires Represent(mem, s.tree, s.pages, s.root) && |mem'| == |mem|
    requires forall f :: 0 <= f < |mem'| ==> |mem'[f]| == SLOTS
    requires forall n :: n in s.pages ==> mem'[s.pages[n]] == mem[s.pages[n]]
    ensures Represent(mem', s.tree, s.pages, s.root)
  {
    forall n, e | n in s.pages && 0 <= e < SLOTS
      ensures EntryAt(mem', s.tree, s.pages, n, e)
    {
      assert EntryAt(mem, s.tree, s.pages, n, e);
    }
  }

  /** page_alloc and page_free in one address space leave the tables of another one as they are. */
  lemma CallSpares(w: World, c: Call, w': World, root: nat, s: Space)
    requires Made(w, c, w', root) && Beside(w, s) && FreesNone(c, s)
    ensures Beside(w', s) && w'.mem[s.root] == w.mem[s.root]
  {
    CallWrites(w, c, w', root);
    assert ROOT in s.pages && s.pages[ROOT] == s.root;
    forall n | n in s.pages
      ensures w'.mem[s.pages[n]] == w.mem[s.pages[n]] && s.pages[n] !in w'.list && !Owns(w'.pages, s.pages[n])
    {
      assert Owns(s.pages, s.pages[n]);
    }
    SameTables(w.mem, w'.mem, s);
  }

  /** So the addresses of the other space translate as before. */
  lemma SpaceTranslates(w: World, w': World, s: Space, x: nat)
    requires Beside(w, s) && Beside(w', s) && w'.mem[s.root] == w.mem[s.root]
    requires x < LIMIT && !IsSystem(RootEntry(w.mem, s.root, x))
    ensures WalkFrames(w'.mem, s.root, x, 4) == WalkFrames(w.mem, s.root, x, 4)
  {
    WalkAgrees(w.mem, s.tree, s.pages, s.root, ROOT, x, 4);
    WalkAgrees(w'.mem, s.tree, s.pages, s.root, ROOT, x, 4);
  }

  // ----- The kernel's part of an address space -----

  /** The kernel's tables are in frames of their own, and the root table has the kernel's system entries, and no
      others. */
  ghost predicate Carries(w: World, k: K.Kernel, root: nat) {
    && K.Sound(k) && K.InFrames(w.mem, k) && K.AboveKernel(w) && root < |w.mem|
    && forall e :: 0 <= e < SLOTS && (IsSystem(w.mem[root][e]) || IsSystem(w.mem[K.KERNEL_FRAME][e])) ==>
         w.mem[root][e] == w.mem[K.KERNEL_FRAME][e]
  }

  /** The kernel's table pages, as page frames. */
  lemma TableInFrames(kpt: KMem.KTable, mem: Memory)
    requires kpt.Represents()
    requires K.KERNEL_FRAMES_END <= |mem| && forall f :: 0 <= f < |mem| ==> |mem[f]| == SLOTS
    requires forall p, e :: 0 <= p < KMem.TABLE_PAGES && 0 <= e < SLOTS ==>
      mem[K.KERNEL_FRAME + p][e] == kpt.entry[p, e]
    ensures var k := K.Kernel(kpt.tree, kpt.pages, kpt.used); K.Sound(k) && K.InFrames(mem, k)
  {
    var k := K.Kernel(kpt.tree, kpt.pages, kpt.used);
    forall n, e | n in k.pages && 0 <= e < SLOTS
      ensures mem[K.KERNEL_FRAME + k.pages[n]][e] == KMem.Encoded(k.tree, k.pages, Child(n, e))
    {
      assert kpt.entry[k.pages[n], e] == KMem.Encoded(k.tree, k.pages, Child(n, e));
    }
  }

  /** A new address space carries the kernel's part, if no frame of the kernel's memory was listed. */
  lemma NewCarries(list: seq<nat>, w: World, k: K.Kernel)
    requires list != [] && forall p :: p in list ==> p >= K.KERNEL_END
    requires w.pages == map[ROOT := list[0]] && w.list == list[1..] && list[0] < |w.mem|
    requires K.Sound(k) && K.InFrames(w.mem, k) && w.mem[list[0]] == w.mem[K.KERNEL_FRAME]
    ensures Carries(w, k, list[0])
  {
    assert forall p :: p in list[1..] ==> p in list;
    assert list[0] in list;
  }

  lemma KernelNotAvailable(db: FrameDb)
    requires db.Valid() && forall p :: p in db.list ==> p >= K.KERNEL_END
    ensures forall p: nat :: p < K.KERNEL_END && p < db.pf.Length ==> db.pf[p].typ != AVAILABLE
  {
    var pf := db.pf[..];
    assert forall p :: 0 <= p < |pf| && pf[p].typ == AVAILABLE ==> p in db.list;
    assert forall p :: 0 <= p < db.pf.Length ==> pf[p] == db.pf[p];
  }

  /** The kernel's tables stay as they are while frames that were not available do. */
  lemma KernelStays(mem: Memory, mem': Memory, k: K.Kernel)
    requires K.Sound(k) && K.InFrames(mem, k) && |mem'| == |mem| && forall f :: 0 <= f < |mem'| ==> |mem'[f]| == SLOTS
    requires forall f :: 0 <= f < K.KERNEL_FRAMES_END ==> mem'[f] == mem[f]
    ensures K.InFrames(mem', k)
  {
  }

  /** pagetable_create, with the kernel's table: the new address space carries the kernel's part. */
  method NewSpace(a: P.AddressSpace, vaddr: nat, size: nat, ghost k: K.Kernel) returns (ok: bool)
    requires a.db.Valid() && a.mem.Length == a.db.pf.Length && K.Sound(k) && K.InFrames(a.mem[..], k)
    requires vaddr % PAGE_SIZE == 0 && vaddr + size <= LIMIT && forall p :: p in a.db.list ==> p >= K.KERNEL_END
    modifies a, a.db`head, a.db`list, a.db.pf, a.mem
    ensures ok ==> a.Valid() && Carries(a.Now(), k, a.proot)
  {
    ghost var mem, list := a.mem[..], a.db.list;
    KernelNotAvailable(a.db);
    forall e: nat | e < SLOTS
      ensures mem[K.KERNEL_FRAME][e] == 0 || IsSystem(mem[K.KERNEL_FRAME][e])
    {
      K.RootEntries(mem, k, e);
    }
    ok := a.Create(vaddr, size, K.KERNEL_FRAME);
    if ok {
      KernelStays(mem, a.mem[..], k);
      NewCarries(list, a.Now(), k);
    }
  }

  /** The frames of the kernel's tables keep their contents. */
  lemma KernelFrames(w: World, c: Call, w': World, root: nat, p: nat)
    requires Made(w, c, w', root) && K.AboveKernel(w) && p < K.KERNEL_FRAMES_END <= |w.mem|
    ensures |w'.mem| == |w.mem| && w'.mem[p] == w.mem[p]
  {
    CallWrites(w, c, w', root);
    assert p < K.KERNEL_END;
  }

  /** No frame of the kernel's memory is given back. */
  ghost predicate FreesAbove(c: Call) {
    c.Free? ==> forall f :: f in c.frames ==> f >= K.KERNEL_END
  }

  lemma CallAbove(w: World, c: Call, w': World, root: nat)
    requires Made(w, c, w', root) && K.AboveKernel(w) && FreesAbove(c)
    ensures K.AboveKernel(w')
  {
    CallWrites(w, c, w', root);
    forall n | n in w'.pages
      ensures w'.pages[n] >= K.KERNEL_END
    {
      assert Owns(w'.pages, w'.pages[n]);
    }
  }

  /** page_alloc and page_free keep the kernel's tables, if no frame of the kernel's memory is freed. */
  lemma CallKeepsKernel(w: World, c: Call, w': World, root: nat, k: K.Kernel)
    requires Made(w, c, w', root) && K.AboveKernel(w) && FreesAbove(c) && K.Sound(k) && K.InFrames(w.mem, k)
    ensures K.AboveKernel(w') && K.InFrames(w'.mem, k) && w'.mem[K.KERNEL_FRAME] == w.mem[K.KERNEL_FRAME]
  {
    CallAbove(w, c, w', root);
    forall p | 0 <= p < K.KERNEL_FRAMES_END
      ensures |w'.mem| == |w.mem| && w'.mem[p] == w.mem[p]
    {
      KernelFrames(w, c, w', root, p);
    }
  }

  /** So they keep the kernel's part of their own address space, and of any other. */
  lemma CallCarries(w: World, c: Call, w': World, root: nat, k: K.Kernel)
    requires Made(w, c, w', root) && Carries(w, k, root) && FreesAbove(c)
    ensures Carries(w', k, root)
  {
    CallKeepsKernel(w, c, w', root, k);
    CallWrites(w, c, w', root);
  }

  lemma CallCarriesBeside(w: World, c: Call, w': World, root: nat, k: K.Kernel, s: Space)
    requires Made(w, c, w', root) && Beside(w, s) && FreesNone(c, s) && Carries(w, k, s.root) && FreesAbove(c)
    ensures Carries(w', k, s.root)
  {
    CallKeepsKernel(w, c, w', root, k);
    CallSpares(w, c, w', root, s);
  }

  /** Where an address space carries the kernel's part, system addresses translate to themselves, exactly as far as the
      memory map has memory to be mapped. */
  lemma CarriedIdentity(w: World, k: K.Kernel, root: nat, s: seq<Region>, lastUsable: nat, a: nat)
    requires Carries(w, k, root) && a < LIMIT && IsSystem(RootEntry(w.mem, root, a))
    requires Canonical(s) && FitsAll(s) && IsUsableEnd(s, lastUsable) && k.tree == MapTree(s, |s|, lastUsable)
    ensures WalkFrames(w.mem, root, a, 4) == if Visible(TypeAt(s, a), lastUsable, a) then Mapped(a) else NotPresent
  {
    K.AboveIsApart(w);
    K.SharedWalk(w, k, root, a);
    MapTreeWalk(s, lastUsable, a, 4);
  }

  // ----- Runs -----

  /** The worlds of an address space while its pages are allocated and freed. */
  ghost predicate IsRun(ws: seq<World>, cs: seq<Call>, root: nat) {
    |ws| == |cs| + 1 && forall i :: 0 <= i < |cs| ==> Made(ws[i], cs[i], ws[i + 1], root)
  }

  /** Over any run of page_alloc and page_free in one address space every address of another one translates as at
      the start. */
  lemma {:induction false} RunSpares(ws: seq<World>, cs: seq<Call>, root: nat, s: Space, i: nat)
    requires IsRun(ws, cs, root) && Beside(ws[0], s) && i <= |cs| && forall c :: c in cs ==> FreesNone(c, s)
    ensures Beside(ws[i], s) && ws[i].mem[s.root] == ws[0].mem[s.root]
    ensures forall x | 0 <= x < LIMIT && !IsSystem(RootEntry(ws[0].mem, s.root, x)) ::
      WalkFrames(ws[i].mem, s.root, x, 4) == WalkFrames(ws[0].mem, s.root, x, 4)
  {
    if i > 0 {
      RunSpares(ws, cs, root, s, i - 1);
      assert Made(ws[i - 1], cs[i - 1], ws[i - 1 + 1], root) && cs[i - 1] in cs;
      CallSpares(ws[i - 1], cs[i - 1], ws[i], root, s);
    }
    forall x | 0 <= x < LIMIT && !IsSystem(RootEntry(ws[0].mem, s.root, x))
      ensures WalkFrames(ws[i].mem, s.root, x, 4) == WalkFrames(ws[0].mem, s.root, x, 4)
    {
      SpaceTranslates(ws[0], ws[i], s, x);
    }
  }

  /** Over any such run that frees none of the kernel's memory the address space carries the kernel's part. */
  lemma {:induction false} RunCarries(ws: seq<World>, cs: seq<Call>, root: nat, k: K.Kernel, i: nat)
    requires IsRun(ws, cs, root) && Carries(ws[0], k, root) && i <= |cs|
    requires forall c :: c in cs ==> FreesAbove(c)
    ensures Carries(ws[i], k, root)
  {
    if i > 0 {
      RunCarries(ws, cs, root, k, i - 1);
      assert Made(ws[i - 1], cs[i - 1], ws[i - 1 + 1], root) && cs[i - 1] in cs;
      CallCarries(ws[i - 1], cs[i - 1], ws[i], root, k);
    }
  }

  /** And so does every other one that did at the start. */
  lemma {:induction false} RunCarriesBeside(ws: seq<World>, cs: seq<Call>, root: nat, k: K.Kernel, s: Space, i: nat)
    requires IsRun(ws, cs, root) && Beside(ws[0], s) && Carries(ws[0], k, s.root) && i <= |cs|
    requires forall c :: c in cs ==> FreesNone(c, s) && FreesAbove(c)
    ensures Carries(ws[i], k, s.root)
  {
    if i > 0 {
      RunCarriesBeside(ws, cs, root, k, s, i - 1);
      RunSpares(ws, cs, root, s, i - 1);
      assert Made(ws[i - 1], cs[i - 1], ws[i - 1 + 1], root) && cs[i - 1] in cs;
      CallCarriesBeside(ws[i - 1], cs[i - 1], ws[i], root, k, s);
    }
  }

  // ----- Two address spaces -----

  /** Two address spaces on the same frames, with no table in common. */
  ghost predicate Neighbours(a: P.AddressSpace, b: P.AddressSpace)
    reads a, b, a.mem, b.mem, a.db, b.db, a.db.pf, b.db.pf
  {
    && a != b && a.db == b.db && a.mem == b.mem && a.Valid() && b.Valid()
    && forall n :: n in b.pages ==> !Owns(a.pages, b.pages[n])
  }

  ghost function SpaceOf(b: P.AddressSpace): Space
    reads b
  {
    Space(b.tree, b.pages, b.proot)
  }

  lemma ListedAvailable(db: FrameDb)
    requires db.Valid()
    ensures forall p :: p in db.list ==> p < db.pf.Length && db.pf[p].typ == AVAILABLE
  {
    forall p | p in db.list
      ensures p < db.pf.Length && db.pf[p].typ == AVAILABLE
    {
      var i :| 0 <= i < |db.list| && db.list[i] == p;
      assert ListedAt(db.pf[..], db.list, i);
    }
  }

  lemma NeighboursBeside(a: P.AddressSpace, b: P.AddressSpace)
    requires Neighbours(a, b)
    ensures Beside(a.Now(), SpaceOf(b))
  {
    ListedAvailable(a.db);
  }

  /** The second address space is as sound as before once its tables are kept and still allocated. */
  lemma StillNeighbours(a: P.AddressSpace, b: P.AddressSpace)
    requires a != b && a.db == b.db && a.mem == b.mem && a.Valid() && Beside(a.Now(), SpaceOf(b))
    requires b.vnext % PAGE_SIZE == 0 && b.vterm <= LIMIT
    requires forall n :: n in b.pages ==> b.pages[n] in a.Taken()
    ensures Neighbours(a, b)
  {
  }

  /** page_alloc in the first of two address spaces: the second stays sound, with the same tables and entries. */
  method AllocBeside(a: P.AddressSpace, b: P.AddressSpace, start: nat, count: nat)
    returns (ok: bool, ghost frames: seq<nat>)
    requires Neighbours(a, b) && start % PAGE_SIZE == 0 && start + count * PAGE_SIZE <= LIMIT
    requires start + count * PAGE_SIZE <= a.vnext || a.vterm <= start
    modifies a`tree, a`pages, a`vnext, a.db`head, a.db`list, a.db.pf, a.mem
    ensures ok ==> Neighbours(a, b) && SpaceOf(b) == old(SpaceOf(b))
    ensures ok ==> Made(old(a.Now()), Call.Alloc(start, frames, old(a.vnext), a.vterm), a.Now(), a.proot)
    ensures ok ==> Beside(old(a.Now()), SpaceOf(b)) && Beside(a.Now(), SpaceOf(b))
    ensures ok ==> a.mem[b.proot] == old(a.mem[b.proot])
  {
    ghost var w, s, lo := a.Now(), SpaceOf(b), a.vnext;
    NeighboursBeside(a, b);
    assert forall n :: n in b.pages ==> b.pages[n] in a.Taken();
    ok, frames := a.PageAlloc(start, count);
    if ok {
      CallSpares(w, Call.Alloc(start, frames, lo, a.vterm), a.Now(), a.proot, s);
      StillNeighbours(a, b);
    }
  }

  lemma TablesTaken(a: P.AddressSpace, b: P.AddressSpace, frames: seq<nat>)
    requires Neighbours(a, b) && forall f :: f in frames ==> !Owns(b.pages, f)
    ensures forall n :: n in b.pages ==> b.pages[n] in a.Taken() && b.pages[n] !in frames
  {
    forall n | n in b.pages
      ensures b.pages[n] !in frames
    {
      assert Owns(b.pages, b.pages[n]);
    }
  }

  lemma MadeFree(w: World, w': World, root: nat, frames: seq<nat>)
    requires Represent(w.mem, w.tree, w.pages, root) && Represent(w'.mem, w'.tree, w'.pages, root)
    requires w'.pages == w.pages && MemoryKept(w.mem, w'.mem, w.pages, root) && w'.list == Returned(frames, w.list)
    ensures Made(w, Call.Free(frames), w', root)
  {
  }

  /** page_free, as a call in a run. */
  method FreeIn(a: P.AddressSpace, start: nat, count: nat, ghost frames: seq<nat>)
    requires a.Valid() && start % PAGE_SIZE == 0 && start + count * PAGE_SIZE <= LIMIT && a.db.list != []
    requires |frames| == count && Distinct(frames) && a.ToFree(start, frames, 0)
    modifies a`tree, a.mem, a.db`head, a.db`list, a.db`avail, a.db.pf
    ensures a.Valid() && Made(old(a.Now()), Call.Free(frames), a.Now(), a.proot)
    ensures forall q :: q in old(a.Taken()) && q !in frames ==> q in a.Taken()
  {
    ghost var w := a.Now();
    a.PageFree(start, count, frames);
    assert frames[..count] == frames;
    MadeFree(w, a.Now(), a.proot, frames);
  }

  /** page_free in the first of two address spaces, of frames that hold no table of the second. */
  method FreeBeside(a: P.AddressSpace, b: P.AddressSpace, start: nat, count: nat, ghost frames: seq<nat>)
    requires Neighbours(a, b) && start % PAGE_SIZE == 0 && start + count * PAGE_SIZE <= LIMIT && a.db.list != []
    requires |frames| == count && Distinct(frames) && a.ToFree(start, frames, 0)
    requires forall f :: f in frames ==> !Owns(b.pages, f)
    modifies a`tree, a.mem, a.db`head, a.db`list, a.db`avail, a.db.pf
    ensures Neighbours(a, b) && SpaceOf(b) == old(SpaceOf(b))
    ensures Made(old(a.Now()), Call.Free(frames), a.Now(), a.proot)
    ensures Beside(old(a.Now()), SpaceOf(b)) && Beside(a.Now(), SpaceOf(b)) && a.mem[b.proot] == old(a.mem[b.proot])
  {
    ghost var w, s := a.Now(), SpaceOf(b);
    NeighboursBeside(a, b);
    TablesTaken(a, b, frames);
    FreeIn(a, start, count, frames);
    CallSpares(w, Call.Free(frames), a.Now(), a.proot, s);
    StillNeighbours(a, b);
  }
}
