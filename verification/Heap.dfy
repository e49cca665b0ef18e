/** The kernel's heap allocator: a first-fit, boundary-tag allocator over raw memory. */
module Heap {
  import opened Common
  import opened HeapBlocks
  import opened HeapLinks
  import opened HeapSteps
  import opened HeapRelease
  import opened HeapMisfree
  import opened HeapRuns

  const U64 := 0x1_0000_0000_0000_0000

  /** The size, in bytes, of the block that serves a request: round16(n, 8), in 64-bit arithmetic. */
  function Round16(n: nat): nat {
    ((n + 23) % U64 / 16 * 16 + U64 - 8) % U64
  }

  /**
    Rounding gives the smallest size of at least n bytes that is 8 (mod 16), unless n is one of
    the last seven 64-bit numbers: for those the size wraps round to 8.
  */
  lemma Round16Meaning(n: nat)
    requires n < U64
    ensures Round16(n) % 16 == 8
    ensures Round16(n) >= n <==> n <= U64 - 8
    ensures n <= U64 - 8 ==> Round16(n) < n + 16
  {
  }

  /** The pages that growing for a block of this many bytes asks for, in 64-bit arithmetic. */
  function PagesAsked(size: nat): nat {
    ((size + WORD * TAGS) % U64 + PAGE_SIZE - 1) % U64 / PAGE_SIZE
  }

  const MAX_REQUEST := U64 - PAGE_SIZE - WORD * TAGS

  /** The largest request for which neither the rounding nor the number of pages wraps round. */
  lemma RequestExact(n: nat)
    requires n < U64
    ensures Round16(n) >= n && PagesAsked(Round16(n)) * PAGE_SIZE >= Round16(n) + WORD * TAGS <==> n <= MAX_REQUEST
  {
  }

  /** The words that serve a request. */
  lemma RequestWords(size: nat)
    requires size <= MAX_REQUEST
    ensures var n := Round16(size) / WORD; Round16(size) == WORD * n && n % 2 == 1 && size <= WORD * n < size + 16
  {
    Round16Meaning(size);
    OddWords(Round16(size));
  }

  lemma OddWords(r: nat)
    requires r % 16 == 8
    ensures r == WORD * (r / WORD) && r / WORD % 2 == 1
  {
    var q := r / 16;
    assert r == WORD * (2 * q + 1);
  }

  /** A call of the heap's user. */
  datatype Call = Malloc(size: nat) | Dispose(ptr: int)

  function OpOf(c: Call): Op {
    match c
    case Malloc(size) => Request(Round16(size) / WORD)
    case Dispose(ptr) => Give(ptr - HEADER)
  }

  /** The allocated block whose payload is at ptr holds a request of this many bytes, and less than 32 bytes more. */
  predicate Obtained(b: Block, ptr: int, size: nat) {
    b.used && ptr == b.addr + 2 && size <= 8 * b.size < size + 32
  }

  lemma AllocObtains(bs0: seq<Block>, pages: nat, maxpages: nat, size: nat, ptr: int, bs': seq<Block>)
    requires bs0 != [] && pages <= maxpages && size <= MAX_REQUEST
    requires var n := Round16(size) / WORD;
      var bs, i := Site(bs0, pages, maxpages, n), SiteIndex(bs0, pages, maxpages, n);
      && 0 <= i < |bs| && bs[i].size >= n && bs[i].size % 2 == 1 && ptr == bs[i].addr + HEADER && bs' == Carve(bs, i, n)
    ensures exists b :: b in bs' && Obtained(b, ptr, size)
  {
    RequestWords(size);
    var n := Round16(size) / WORD;
    var i := SiteIndex(bs0, pages, maxpages, n);
    assert Obtained(bs'[i], ptr, size);
  }

  /** If a free block is big enough, there is a first one. */
  lemma ServedAtOnce(bs: seq<Block>, n: nat)
    ensures (exists b :: b in bs && !b.used && b.size >= n) <==> FirstFit(bs, n) < |bs|
  {
    var i := FirstFit(bs, n);
    if i < |bs| { assert bs[i] in bs; }
  }

  /** Payloads start at an even word. */
  lemma PayloadAligned(bs: seq<Block>, hi: int, i: nat)
    requires Tiled(bs, HEAP_HEADER, hi) && i < |bs|
    ensures (bs[i].addr + HEADER) % 2 == 0 && bs[i].size % 2 == 1
  {
    TiledAt(bs, HEAP_HEADER, hi, i);
  }

  class Heap {
    const mem: array<int>      // the window of virtual memory from vaddr, maxpages pages long
    const maxpages: nat
    var pages: nat             // pages of the window allocated so far
    var first: int             // first free block
    ghost var blocks: seq<Block>

    ghost function Top(): int reads this { pages * PAGE_WORDS }

    ghost predicate Window() reads this {
      && mem.Length == maxpages * PAGE_WORDS
      && 0 < pages <= maxpages
    }

    ghost predicate Valid() reads this, mem {
      && Window()
      && Inv(mem[..], first, blocks, Top())
      && mem[HEAP_HEADER - 1] >= 0   // the heap header's reserved word
    }

    constructor (maxpages_: nat)
      ensures Valid() && fresh(mem)
      ensures pages == 16 && maxpages == if maxpages_ > 16 then maxpages_ else 16
      ensures blocks == [Block(6, 16 * 512 - 9, false)]
    {
      maxpages := if maxpages_ > ALLOC_PAGES then maxpages_ else ALLOC_PAGES;
      mem := new int[(if maxpages_ > ALLOC_PAGES then maxpages_ else ALLOC_PAGES) * PAGE_WORDS](_ => 0);
      pages := ALLOC_PAGES;
      first := HEAP_HEADER;
      var size := ALLOC_PAGES * PAGE_WORDS - HEAP_HEADER - TAGS;
      blocks := [Block(HEAP_HEADER, size, false)];
      new;
      mem[first] := WORD * size;
      mem[first + 1] := 0;
      mem[first + 2] := 0;
      mem[first + 3] := 0;
      mem[first + HEADER + size] := WORD * size;
      InvOfSingle(mem[..], blocks[0], ALLOC_PAGES * PAGE_WORDS);
    }

    /**
      The check for a free previous block, as coded: the pointer it computes lies one word
      before that block's header, so the "flags" it tests are that block's size.
    */
    method PrevAdjacent(bh: int, ghost i: nat) returns (r: int)
      requires Valid() && i < |blocks| && bh == blocks[i].addr
      ensures r == if i == 0 then 0 else blocks[i - 1].addr - 1
    {
      SpreadOf(blocks, HEAP_HEADER, Top());
      if bh == HEAP_HEADER { return 0; }
      assert i > 0;
      assert Tagged(mem[..], blocks[i - 1]);
      SizeWord(blocks[i - 1].size);
      var bf := bh - 1;
      var prev := bf - (mem[bf] / WORD + TAGS);
      if mem[prev + 1] % 2 == 0 { return prev; }
      return 0;
    }

    /** The next block's header if that block is free. */
    method NextAdjacent(bh: int, ghost i: nat) returns (r: int)
      requires Valid() && i < |blocks| && bh == blocks[i].addr
      ensures r == if i + 1 < |blocks| && !blocks[i + 1].used then blocks[i + 1].addr else 0
    {
      SpreadOf(blocks, HEAP_HEADER, Top());
      assert Tagged(mem[..], blocks[i]);
      var next := bh + mem[bh] / WORD + TAGS;
      if next >= pages * PAGE_WORDS { return 0; }
      assert Tagged(mem[..], blocks[i + 1]);
      if mem[next + 1] % 2 == 0 { return next; }
      return 0;
    }

    /** The first free block after block i, found by walking from header to header. */
    method ScanNext(start: int, ghost bs: seq<Block>, ghost i: nat) returns (r: int)
      requires Window() && Tiled(bs, HEAP_HEADER, Top()) && AllTagged(mem[..], bs)
      requires i < |bs| && start == bs[i].addr
      ensures r == FirstFree(bs[i + 1..])
    {
      SpreadOf(bs, HEAP_HEADER, Top());
      var bh := start;
      ghost var k := i;
      while true
        invariant i <= k < |bs| && bh == bs[k].addr
        invariant FirstFree(bs[i + 1..]) == FirstFree(bs[k + 1..])
        decreases |bs| - k
      {
        assert Tagged(mem[..], bs[k]);
        bh := bh + mem[bh] / WORD + TAGS;
        if bh >= pages * PAGE_WORDS { return 0; }
        k := k + 1;
        assert Tagged(mem[..], bs[k]);
        assert bs[k..][0] == bs[k] && bs[k..][1..] == bs[k + 1..];
        if mem[bh + 1] % 2 == 0 { return bh; }
      }
    }

    /** The last free block before `start`, found by walking from footer to footer. */
    method ScanPrev(start: int, ghost bs: seq<Block>, ghost hi: int, ghost i: nat) returns (r: int)
      requires Tiled(bs, HEAP_HEADER, hi) && AllTagged(mem[..], bs)
      requires i <= |bs| && start == Start(bs, i, hi)
      ensures r == LastFree(bs[..i])
    {
      SpreadOf(bs, HEAP_HEADER, hi);
      var bh := start;
      ghost var k := i;
      while true
        invariant 0 <= k <= i && bh == Start(bs, k, hi)
        invariant LastFree(bs[..i]) == LastFree(bs[..k])
        decreases k
      {
        if bh == HEAP_HEADER { assert k == 0; return 0; }
        assert Tagged(mem[..], bs[k - 1]);
        var bf := bh - 1;
        bh := bh - (mem[bf] / WORD + TAGS);
        assert bs[..k][k - 1] == bs[k - 1] && bs[..k][..k - 1] == bs[..k - 1];
        k := k - 1;
        if mem[bh + 1] % 2 == 0 { return bh; }
      }
    }

    /** Maps zeroed pages at the end of the heap (page_alloc). */
    method MapPages(p: nat)
      requires Window() && pages + p <= maxpages
      modifies this`pages, mem
      ensures pages == old(pages) + p
      ensures forall w :: 0 <= w < old(Top()) ==> mem[w] == old(mem[w])
    {
      var lo, hi := pages * PAGE_WORDS, (pages + p) * PAGE_WORDS;
      assert hi <= mem.Length;
      forall w | lo <= w < hi { mem[w] := 0; }
      pages := pages + p;
    }

    /** New pages as a free block of their own, which the free block before is not told of. */
    method AppendFree(vnext: int, p: nat, ghost bs: seq<Block>) returns (fh: int)
      requires Window() && Tiled(bs, HEAP_HEADER, vnext) && AllTagged(mem[..], bs)
      requires HEAP_HEADER <= vnext && p > 0 && vnext + p * PAGE_WORDS == Top()
      modifies this`first, mem
      ensures fh == vnext && Tagged(mem[..], Block(fh, p * PAGE_WORDS - TAGS, false))
      ensures mem[fh + 2] == 0 && mem[fh + 3] == LastFree(bs)
      ensures first == if LastFree(bs) == 0 then fh else old(first)
      ensures forall w :: 0 <= w < vnext ==> mem[w] == old(mem[w])
    {
      fh := vnext;
      var size := p * PAGE_WORDS - TAGS;
      var prev := ScanPrev(vnext, bs, vnext, |bs|);
      assert bs[..|bs|] == bs;
      mem[fh] := WORD * size;
      mem[fh + 1] := 0;
      mem[fh + 2] := 0;
      mem[fh + 3] := prev;
      if prev == 0 { first := fh; }
      var ff := fh + mem[fh] / WORD + HEADER;
      mem[ff] := mem[fh];
    }

    /** New pages as part of the last block, which is free. */
    method ExtendLast(lh: int, p: nat, ghost last: Block)
      requires Window() && Tagged(mem[..], last) && !last.used && last.size >= 3
      requires lh == last.addr && p > 0 && last.End() + p * PAGE_WORDS == Top()
      modifies mem
      ensures Tagged(mem[..], Block(lh, last.size + p * PAGE_WORDS, false))
      ensures mem[lh + 2] == old(mem[lh + 2]) && mem[lh + 3] == old(mem[lh + 3])
      ensures forall w :: 0 <= w < lh ==> mem[w] == old(mem[w])
    {
      mem[lh] := mem[lh] + p * PAGE_SIZE;
      var ff := lh + mem[lh] / WORD + HEADER;
      mem[ff] := mem[lh];
    }

    /** Makes the last block, new or old, cover the pages just mapped. */
    method PlaceNew(vnext: int, p: nat, ghost bs: seq<Block>) returns (fh: int)
      requires Window() && LastLinked(mem[..], bs, vnext)
      requires Tiled(bs, HEAP_HEADER, vnext) && AllTagged(mem[..], bs)
      requires p > 0 && vnext + p * PAGE_WORDS == Top()
      modifies this`first, mem
      ensures GrownStores(old(mem[..]), mem[..], old(first), first, bs, p)
      ensures fh == Grow(bs, p)[|Grow(bs, p)| - 1].addr
    {
      var lf := vnext - 1;
      var lh := lf - (mem[lf] / WORD + HEADER);
      assert lh == bs[|bs| - 1].addr;
      GrownParts(bs, p);
      if mem[lh + 1] % 2 != 0 {
        fh := AppendFree(vnext, p, bs);
        assert bs[..|bs|] == bs;
      } else {
        fh := lh;
        ExtendLast(lh, p, bs[|bs| - 1]);
      }
    }

    method GrowBy(p: nat) returns (fh: int)
      requires Valid() && p > 0 && pages + p <= maxpages
      modifies this, mem
      ensures Window() && pages == old(pages) + p && mem[HEAP_HEADER - 1] >= 0
      ensures blocks == Grow(old(blocks), p) && fh == blocks[|blocks| - 1].addr
      ensures GrownReady(old(mem[..]), mem[..], first, old(blocks), p, old(Top()))
    {
      ghost var bs, m, hi := blocks, mem[..], Top();
      LastLinks(m, first, bs, hi);
      var vnext := pages * PAGE_WORDS;
      MapPages(p);
      TagsFrame(m, mem[..], bs, hi);
      fh := PlaceNew(vnext, p, bs);
      blocks := Grow(bs, p);
      GrownCarvable(m, mem[..], old(first), first, bs, p, hi);
    }

    /** The number of pages to add for n more words, or 0 if the window has no room for them. */
    method PagesToAdd(size: nat, ghost n: nat) returns (p: nat)
      requires Window() && size == WORD * n
      ensures CanGrow(pages, maxpages, n) <==> p > 0
      ensures p > 0 ==> p == GrowthPages(pages, maxpages, n) && pages + p <= maxpages && p * PAGE_WORDS >= n + TAGS
    {
      var minsize := size + WORD * TAGS;
      p := (minsize + PAGE_SIZE - 1) / PAGE_SIZE;
      if p < ALLOC_PAGES { p := ALLOC_PAGES; }
      if pages + p > maxpages {
        p := maxpages - pages;
        if p * PAGE_SIZE < minsize { return 0; }
      }
    }

    /**
      Makes the heap bigger so that its last block is free and holds n words; 0 if the window
      is too small for them.
    */
    method GrowHeap(size: nat, ghost n: nat) returns (fh: int)
      requires Valid() && size == WORD * n && n % 2 == 1
      modifies this, mem
      ensures fh == 0 <==> 512 * (maxpages - old(pages)) < n + 3
      ensures fh == 0 ==> unchanged(this) && unchanged(mem)
      ensures fh != 0 ==> Tight(pages - old(pages), old(pages), maxpages, n)
      ensures fh != 0 ==>
        && Window() && old(pages) < pages && pages == old(pages) + GrowthPages(old(pages), maxpages, n)
        && blocks == Grow(old(blocks), pages - old(pages))
        && fh == blocks[|blocks| - 1].addr && blocks[|blocks| - 1].size >= n
        && Carvable(mem[..], first, blocks, |blocks| - 1, Top()) && mem[HEAP_HEADER - 1] >= 0
        && Untouched(old(mem[..]), mem[..], old(blocks))
      ensures fh != 0 ==>
        var prev := LastFree(old(blocks)); old(blocks[|blocks| - 1].used) && prev != 0 ==>
          0 < prev < mem.Length - 2 && mem[prev + 2] == 0
    {
      var p := PagesToAdd(size, n);
      if p == 0 { return 0; }
      assert Tagged(mem[..], blocks[|blocks| - 1]);
      GrowBigEnough(blocks, p, n);
      fh := GrowBy(p);
    }

    /** Walks the free list for a block of at least n words. */
    method SearchFree(size: nat, ghost n: nat) returns (fh: int, ghost i: nat)
      requires Valid() && size == WORD * n
      ensures i == FirstFit(blocks, n)
      ensures fh == 0 <==> i == |blocks|
      ensures i < |blocks| ==> fh == blocks[i].addr
    {
      fh := first;
      ghost var k := 0;
      assert blocks[0..] == blocks;
      while fh != 0
        invariant k <= |blocks| && fh == FirstFree(blocks[k..]) && NoneFits(blocks, n, k)
        decreases |blocks| - k
      {
        i := SearchStep(mem[..], first, blocks, Top(), n, k);
        if mem[fh] >= size { return; }
        fh := mem[fh + 2];
        k := i + 1;
      }
      i := SearchStep(mem[..], first, blocks, Top(), n, k);
    }

    /** The block that serves a request is ready to be carved, and nothing allocated has changed. */
    ghost predicate Served(m: seq<int>, bs: seq<Block>, n: nat, fh: int, i: nat)
      requires bs != []
      reads this, mem
    {
      && Window() && mem[HEAP_HEADER - 1] >= 0
      && Carvable(mem[..], first, blocks, i, Top())
      && fh == blocks[i].addr && blocks[i].size >= n
      && Untouched(m, mem[..], bs)
    }

    /** Growing the heap because no free block is big enough. */
    method GrowFor(size: nat, ghost n: nat) returns (fh: int)
      requires Valid() && size == WORD * n && n % 2 == 1 && FirstFit(blocks, n) == |blocks|
      modifies this, mem
      ensures fh != 0 <==> CanGrow(old(pages), maxpages, n)
      ensures fh == 0 ==> unchanged(this) && unchanged(mem)
      ensures fh != 0 ==> blocks != [] && Served(old(mem[..]), old(blocks), n, fh, |blocks| - 1)
      ensures fh != 0 ==> pages == old(pages) + GrowthPages(old(pages), maxpages, n)
      ensures fh != 0 ==> blocks == Grow(old(blocks), GrowthPages(old(pages), maxpages, n))
    {
      ghost var p := GrowthPages(pages, maxpages, n);
      fh := GrowHeap(size, n);
      assert fh != 0 ==> pages - old(pages) == p;
    }

    /** The first free block of at least n words, or, if there is none, a grown last block. */
    method FindFree(size: nat, ghost n: nat) returns (fh: int, ghost i: nat)
      requires Valid() && size == WORD * n && n % 2 == 1
      modifies this, mem
      ensures fh != 0 <==> Fits(old(blocks), old(pages), maxpages, n)
      ensures fh == 0 ==> unchanged(this) && unchanged(mem)
      ensures fh != 0 ==> Served(old(mem[..]), old(blocks), n, fh, i)
      ensures fh != 0 ==>
        && pages == old(pages) + (if FirstFit(old(blocks), n) < |old(blocks)| then 0
                                  else GrowthPages(old(pages), maxpages, n))
        && blocks == Site(old(blocks), old(pages), maxpages, n)
        && i == SiteIndex(old(blocks), old(pages), maxpages, n)
    {
      ghost var m, bs := mem[..], blocks;
      fh, i := SearchFree(size, n);
      if fh != 0 {
        FoundSite(m, first, bs, pages, maxpages, n, Top());
        return;
      }
      GrownSite(bs, pages, maxpages, n);
      fh := GrowFor(size, n);
      i := |blocks| - 1;
    }

    /** Allocates the whole of a free block. */
    method TakeWhole(fh: int, prev: int, next: int, ghost b: Block)
      requires Between(mem[..], b, prev, next) && fh == b.addr
      modifies this`first, mem
      ensures WholeStores(old(mem[..]), mem[..], old(first), first, b, prev, next)
    {
      mem[fh + 1] := 1;
      if prev != 0 { mem[prev + 2] := next; } else { first := next; }
      if next != 0 { mem[next + 3] := prev; }
    }

    /** Writes a block's header and footer. */
    method PutTags(bh: int, size: nat, flags: int, ghost b: Block)
      requires HEAP_HEADER <= b.addr == bh && b.size >= 1 && b.End() <= mem.Length
      requires size == WORD * b.size && flags == if b.used then 1 else 0
      modifies mem
      ensures Tagged(mem[..], b)
      ensures forall w | 0 <= w < mem.Length && w !in {bh, bh + 1, bh + HEADER + b.size} :: mem[w] == old(mem[w])
    {
      mem[bh] := size;
      mem[bh + 1] := flags;
      var bf := bh + size / WORD + HEADER;
      mem[bf] := size;
    }

    /** Allocates the first n words of a free block and makes the rest a free block. */
    method Split(fh: int, prev: int, next: int, size: nat, fsize: nat, ghost b: Block, ghost n: nat)
      requires Between(mem[..], b, prev, next) && fh == b.addr
      requires size == WORD * n && fsize == WORD * b.size && 1 <= n && n + 1 + TAGS <= b.size
      modifies this`first, mem
      ensures SplitStores(old(mem[..]), mem[..], old(first), first, b, n, prev, next)
    {
      PutTags(fh, size, 1, Block(fh, n, true));
      var f := fh + size / WORD + TAGS;
      ghost var fs := b.size - n - TAGS;
      PutTags(f, fsize - size - WORD * TAGS, 0, Block(f, fs, false));
      LinkIn(f, prev, next);
    }

    /** Links a free block between its neighbours on the free list. */
    method LinkIn(f: int, prev: int, next: int)
      requires HEAP_HEADER <= f < mem.Length - 3
      requires prev == 0 || HEAP_HEADER <= prev < f - 3
      requires next == 0 || f + 3 < next < mem.Length - 3
      modifies this`first, mem
      ensures mem[f + 2] == next && mem[f + 3] == prev
      ensures prev != 0 ==> mem[prev + 2] == f
      ensures next != 0 ==> mem[next + 3] == f
      ensures first == if prev != 0 then old(first) else f
      ensures forall w | 0 <= w < mem.Length && w !in {f + 2, f + 3, prev + 2, next + 3} :: mem[w] == old(mem[w])
    {
      mem[f + 3] := prev;
      mem[f + 2] := next;
      if prev != 0 { mem[prev + 2] := f; } else { first := f; }
      if next != 0 { mem[next + 3] := f; }
    }

    /** Allocates n words from free block i. */
    method CarveAt(fh: int, size: nat, ghost i: nat, ghost n: nat)
      requires Window() && Carvable(mem[..], first, blocks, i, Top()) && fh == blocks[i].addr
      requires size == WORD * n && 1 <= n <= blocks[i].size && n % 2 == 1
      modifies this`first, mem
      ensures Inv(mem[..], first, Carve(blocks, i, n), Top()) <==> blocks[i].size != n + 1 + TAGS
      ensures Untouched(old(mem[..]), mem[..], blocks)
      ensures mem[HEAP_HEADER - 1] == old(mem[HEAP_HEADER - 1])
    {
      ghost var bs, m, hi := blocks, mem[..], Top();
      CarveRoom(m, first, bs, i, hi);
      var fsize := mem[fh];
      var next := mem[fh + 2];
      var prev := mem[fh + 3];
      assert prev == LastFree(bs[..i]) && next == FirstFree(bs[i + 1..]);
      if fsize - size < WORD * (1 + TAGS) {
        TakeWhole(fh, prev, next, bs[i]);
        WholeDone(m, mem[..], old(first), first, bs, i, n, hi);
      } else {
        Split(fh, prev, next, size, fsize, bs[i], n);
        SplitDone(m, mem[..], old(first), first, bs, i, n, hi);
      }
    }

    /**
      Allocates at least `size` bytes and returns their offset in words, or 0.  The heap stays
      sound unless the chosen free block is exactly 32 bytes larger than the rounded request:
      the remainder is then a free block of 8 bytes, whose footer its prev link overwrites.
    */
    method Alloc(size: nat) returns (ptr: int)
      requires Valid() && size <= MAX_REQUEST
      modifies this, mem
      ensures Allocates(old(blocks), old(pages), Round16(size) / WORD, ptr)
      ensures ptr == 0 ==> unchanged(this) && unchanged(mem)
      ensures Untouched(old(mem[..]), mem[..], old(blocks))
      ensures pages == old(pages) || Tight(pages - old(pages), old(pages), maxpages, Round16(size) / 8)
      ensures (exists b :: b in old(blocks) && !b.used && 8 * b.size >= Round16(size)) ==>
        ptr != 0 && pages == old(pages)
      ensures (forall b :: b in old(blocks) && !b.used ==> 8 * b.size < Round16(size)) ==>
        (ptr == 0 <==> 512 * (maxpages - old(pages)) < Round16(size) / 8 + 3)
      ensures ptr != 0 ==> exists b :: b in blocks && Obtained(b, ptr, size)
    {
      RequestWords(size);
      ptr := AllocWords(Round16(size), Round16(size) / WORD);
      ServedAtOnce(old(blocks), Round16(size) / WORD);
      if ptr != 0 { AllocObtains(old(blocks), old(pages), maxpages, size, ptr, blocks); }
    }

    /**
      What a request for n words gives, from a heap with these blocks and pages: NULL if it cannot be served, and
      otherwise the payload of the first block that fits, or of the grown last block.
    */
    ghost predicate Allocates(bs0: seq<Block>, pages0: nat, n: nat, ptr: int)
      requires bs0 != [] && pages0 <= maxpages
      reads this, mem
    {
      && (ptr != 0 <==> Fits(bs0, pages0, maxpages, n))
      && (ptr != 0 ==>
        var bs, i := Site(bs0, pages0, maxpages, n), SiteIndex(bs0, pages0, maxpages, n);
        && pages == pages0 + (if FirstFit(bs0, n) < |bs0| then 0 else GrowthPages(pages0, maxpages, n))
        && 0 <= i < |bs| && !bs[i].used && bs[i].size >= n && bs[i].size % 2 == 1
        && ptr == bs[i].addr + HEADER && ptr % 2 == 0   // 16-byte alignment, counted in words
        && blocks == Carve(bs, i, n) && Window()
        && (Valid() <==> bs[i].size != n + 1 + TAGS))
    }

    /** The same for a size that is rounded already. */
    method AllocWords(size: nat, ghost n: nat) returns (ptr: int)
      requires Valid() && size == WORD * n && n % 2 == 1
      modifies this, mem
      ensures Allocates(old(blocks), old(pages), n, ptr)
      ensures ptr == 0 ==> unchanged(this) && unchanged(mem)
      ensures Untouched(old(mem[..]), mem[..], old(blocks))
    {
      ghost var i;
      var fh;
      fh, i := FindFree(size, n);
      if fh == 0 { return 0; }
      PayloadAligned(blocks, Top(), i);
      SiteKeeps(old(blocks), old(pages), maxpages, n);
      CarveServed(fh, size, i, n, old(mem[..]), old(blocks));
      return fh + HEADER;
    }

    /** Allocates the free block that was found; m and bs are the heap before the search. */
    method CarveServed(fh: int, size: nat, ghost i: nat, ghost n: nat, ghost m: seq<int>, ghost bs: seq<Block>)
      requires bs != [] && Served(m, bs, n, fh, i) && Keeps(bs, blocks)
      requires size == WORD * n && 1 <= n && n % 2 == 1
      modifies this`first, this`blocks, mem
      ensures blocks == Carve(old(blocks), i, n) && Untouched(m, mem[..], bs)
      ensures Valid() <==> old(blocks)[i].size != n + 1 + TAGS
    {
      ghost var m1, bs1 := mem[..], blocks;
      CarveAt(fh, size, i, n);
      UntouchedTwice(m, m1, mem[..], bs, bs1);
      blocks := Carve(bs1, i, n);
    }

    /** Merges the block at h into the one at fhp and, if fhn is not 0, the next one too. */
    method MergeBack(h: int, fhp: int, fhn: int) returns (ok: bool)
      requires Window() && 0 <= h < mem.Length && 0 <= fhn < mem.Length && 0 <= fhp < mem.Length
      requires mem[fhp] >= 0 && Swallowed(mem[..], h, fhn) >= WORD * TAGS && fhp != h && fhp != fhn
      requires fhp < Top() && (fhn != 0 ==> CanUnlink(mem[..], fhp, fhn))
      modifies mem
      ensures ok <==> fhp + (old(mem[fhp]) + Swallowed(old(mem[..]), h, fhn)) / WORD + HEADER < Top()
      ensures ok ==> CanMerge(old(mem[..]), fhp, fhn, Swallowed(old(mem[..]), h, fhn))
      ensures ok ==> mem[..] == Merge(old(mem[..]), fhp, fhn, Swallowed(old(mem[..]), h, fhn))
      ensures !ok ==>
        var m := if fhn != 0 then Unlink(old(mem[..]), fhp, fhn) else old(mem[..]);
        mem[..] == m[fhp := old(mem[fhp]) + Swallowed(old(mem[..]), h, fhn)]
    {
      ghost var m := mem[..];
      if fhn != 0 {
        mem[fhp] := mem[fhp] + mem[h] + 2 * WORD * TAGS + mem[fhn];
        mem[fhp + 2] := mem[fhn + 2];
        if mem[fhn + 2] != 0 { mem[mem[fhn + 2] + 3] := fhp; }
      } else {
        mem[fhp] := mem[fhp] + mem[h] + WORD * TAGS;
      }
      var ffp := fhp + mem[fhp] / WORD + HEADER;
      if ffp >= pages * PAGE_WORDS { return false; }
      mem[ffp] := mem[fhp];
      return true;
    }

    /** Lets the block at h take the place of the next one, which is free. */
    method MergeNext(h: int, fhn: int)
      requires Window() && CanAbsorb(mem[..], h, fhn)
      modifies this`first, mem
      ensures mem[..] == Absorb(old(mem[..]), h, fhn)
      ensures first == if old(mem[fhn + 3]) == 0 then h else old(first)
    {
      mem[h] := mem[h] + mem[fhn] + WORD * TAGS;
      mem[h + 1] := 0;
      mem[h + 3] := mem[fhn + 3];
      if mem[h + 3] == 0 { first := h; } else { mem[mem[h + 3] + 2] := h; }
      mem[h + 2] := mem[fhn + 2];
      if mem[h + 2] != 0 { mem[mem[h + 2] + 3] := h; }
      var ff := h + mem[h] / WORD + HEADER;
      mem[ff] := mem[h];
    }

    /** The free block before block i, as heap_free finds it: through the next one if there is one. */
    method PrevOnList(h: int, next: int, ghost m: seq<int>, ghost bs: seq<Block>, ghost i: nat) returns (prev: int)
      requires Window() && Inv(m, first, bs, Top()) && |m| == mem.Length && i < |bs| && bs[i].used
      requires h == bs[i].addr && next == FirstFree(bs[i + 1..])
      requires forall w | 0 <= w < mem.Length && w !in {h + 1, h + 2} :: mem[w] == m[w]
      ensures prev == LastFree(bs[..i])
    {
      OneBlock(m, first, bs, Top(), i);
      if next == 0 {
        TagsBefore(m, mem[..], bs, Top(), i);
        assert bs[..i][..i] == bs[..i];
        prev := ScanPrev(h, bs[..i], h, i);
      } else {
        LinksAround(m, first, bs, Top(), i);
        prev := mem[next + 3];
      }
    }

    /** Clears the block's flag, and stores the next free block's address. */
    method ClearFlag(h: int, ghost i: nat) returns (next: int)
      requires Valid() && i < |blocks| && blocks[i].used && h == blocks[i].addr
      modifies mem
      ensures next == FirstFree(blocks[i + 1..]) && 0 <= h < mem.Length - 2
      ensures mem[..] == old(mem[..])[h + 1 := 0][h + 2 := next]
    {
      ghost var bs, m, hi := blocks, mem[..], Top();
      OneBlock(m, first, bs, hi, i);
      FreedTags(m, bs, hi, i);
      mem[h + 1] := 0;
      assert mem[..] == m[h + 1 := 0];
      next := ScanNext(h, bs[i := Block(h, bs[i].size, false)], i);
      mem[h + 2] := next;
    }

    /** Makes block i free by itself and puts it on the free list. */
    method FreeAlone(h: int, ghost i: nat)
      requires Valid() && i < |blocks| && blocks[i].used && h == blocks[i].addr
      modifies this`first, mem
      ensures CanRelink(old(mem[..]), h, LastFree(blocks[..i]), FirstFree(blocks[i + 1..])) && 0 <= h + 1 < mem.Length
      ensures mem[..] == Relink(old(mem[..])[h + 1 := 0], h, LastFree(blocks[..i]), FirstFree(blocks[i + 1..]))
      ensures first == if LastFree(blocks[..i]) == 0 then h else old(first)
    {
      ghost var bs, m := blocks, mem[..];
      OneBlock(m, first, bs, Top(), i);
      var next := ClearFlag(h, i);
      var prev := PrevOnList(h, next, m, bs, i);
      LinkFree(h, prev, next, m[h + 1 := 0]);
    }

    /** Links a block whose next link is set into the free list. */
    method LinkFree(h: int, prev: int, next: int, ghost m: seq<int>)
      requires CanRelink(m, h, prev, next) && mem[..] == m[h + 2 := next]
      modifies this`first, mem
      ensures mem[..] == Relink(m, h, prev, next) && first == if prev == 0 then h else old(first)
    {
      mem[h + 3] := prev;
      assert mem[..] == m[h + 2 := next][h + 3 := prev];
      if next != 0 { mem[next + 3] := h; }
      if prev == 0 { first := h; } else { mem[prev + 2] := h; }
    }

    /** The memory is what freeing block i one word too low makes of m; `ok` if all its stores are inside the heap. */
    ghost predicate StoredWrongly(m: seq<int>, i: nat, ok: bool)
      reads this, mem
    {
      && |m| == mem.Length && Top() <= |m| && CanMisfree(m, blocks, i)
      && mem[..] == Misfreed(m, blocks, i, Top()) && (ok <==> Landing(m, blocks, i) < Top())
    }

    /** Coalescing when there is, or seems to be, a free block before block i. */
    method CoalescePrev(h: int, fhp: int, fhn: int, ghost i: nat) returns (ok: bool)
      requires Valid() && 0 < i < |blocks| && blocks[i].used && h == blocks[i].addr
      requires fhn == NextFreeHeader(blocks, i) && fhp != 0
      requires fhp == PrevFreeHeader(blocks, i) || fhp == blocks[i - 1].addr - 1
      modifies this`blocks, mem
      ensures fhp == PrevFreeHeader(old(blocks), i) ==>
        ok && blocks == Release(old(blocks), i) && Released(old(mem[..]), mem[..], first, old(blocks), i, Top())
      ensures fhp != PrevFreeHeader(old(blocks), i) ==>
        && blocks == old(blocks) && first == old(first) && StoredWrongly(old(mem[..]), i, ok)
        && (ok ==> !Inv(mem[..], first, Release(blocks, i), Top()))
    {
      ghost var bs, m, hi := blocks, mem[..], Top();
      MergeBackRoom(m, first, bs, i, hi, fhp);
      ok := MergeBack(h, fhp, fhn);
      if fhp == PrevFreeHeader(bs, i) {
        MergeDone(m, first, bs, i, hi);
        blocks := Release(bs, i);
      } else {
        WrongStores(m, first, bs, i, hi, mem[..], ok);
      }
    }

    /** Coalescing when only the block after block i is free. */
    method CoalesceNext(h: int, fhn: int, ghost i: nat)
      requires Valid() && i < |blocks| && blocks[i].used && h == blocks[i].addr
      requires i + 1 < |blocks| && !blocks[i + 1].used && fhn == blocks[i + 1].addr && (i > 0 ==> blocks[i - 1].used)
      modifies this`first, this`blocks, mem
      ensures blocks == Release(old(blocks), i)
      ensures Released(old(mem[..]), mem[..], first, old(blocks), i, Top())
    {
      ghost var bs, m := blocks, mem[..];
      ghost var m', first' := NextDone(m, first, bs, i, Top());
      MergeNext(h, fhn);
      SameReleased(m, m', first', mem[..], first, bs, i, Top());
      blocks := Release(bs, i);
    }

    /** Coalescing when no block next to block i is free. */
    method CoalesceNone(h: int, ghost i: nat)
      requires Valid() && i < |blocks| && blocks[i].used && h == blocks[i].addr
      requires NextFreeHeader(blocks, i) == 0 && PrevFreeHeader(blocks, i) == 0
      modifies this`first, this`blocks, mem
      ensures blocks == Release(old(blocks), i)
      ensures Released(old(mem[..]), mem[..], first, old(blocks), i, Top())
    {
      ghost var bs, m := blocks, mem[..];
      ghost var m', first' := AloneDone(m, first, bs, i, Top());
      FreeAlone(h, i);
      SameReleased(m, m', first', mem[..], first, bs, i, Top());
      blocks := Release(bs, i);
    }

    /**
      The merging half of heap_free.  Given the free neighbours of block i it releases the
      block; given a previous neighbour one word too low it does not.
    */
    method Coalesce(h: int, fhp: int, fhn: int, ghost i: nat) returns (ok: bool)
      requires Valid() && i < |blocks| && blocks[i].used && h == blocks[i].addr
      requires fhn == NextFreeHeader(blocks, i)
      requires fhp == PrevFreeHeader(blocks, i) || (i > 0 && fhp == blocks[i - 1].addr - 1)
      modifies this`first, this`blocks, mem
      ensures fhp == PrevFreeHeader(old(blocks), i) ==>
        ok && blocks == Release(old(blocks), i) && Released(old(mem[..]), mem[..], first, old(blocks), i, Top())
      ensures fhp != PrevFreeHeader(old(blocks), i) ==>
        && blocks == old(blocks) && first == old(first) && StoredWrongly(old(mem[..]), i, ok)
        && (ok ==> !Inv(mem[..], first, Release(blocks, i), Top()))
    {
      ghost var bs, m, hi := blocks, mem[..], Top();
      MergeRanges(m, first, bs, i, hi);
      if fhp != 0 {
        ok := CoalescePrev(h, fhp, fhn, i);
      } else if fhn != 0 {
        CoalesceNext(h, fhn, i);
        ok := true;
      } else {
        CoalesceNone(h, i);
        ok := true;
      }
    }

    /**
      Frees the allocated block whose payload starts at ptr.  This releases the block exactly
      when it is the first of the heap, and not stranded: for any other block the check for a
      free previous block goes wrong.  The other allocated payloads stay as they are when the
      block is the first, and otherwise exactly when the misplaced stores spare them; the heap
      then stays sound exactly when the stores do no more than leak the block.
    */
    method Free(ptr: int, ghost i: nat) returns (ok: bool)
      requires Valid() && i < |blocks| && blocks[i].used && ptr == blocks[i].addr + HEADER
      modifies this`first, this`blocks, mem
      ensures i == 0 <==> ptr == HEAP_HEADER + HEADER
      ensures (ok && Inv(mem[..], first, Release(old(blocks), i), Top())) <==> (i == 0 && !Stranded(old(blocks), i))
      ensures i == 0 ==> ok && blocks == Release(old(blocks), i) && (!Stranded(old(blocks), i) ==> Valid())
      ensures i > 0 ==> blocks == old(blocks) && first == old(first) && StoredWrongly(old(mem[..]), i, ok)
      ensures i > 0 ==> (Valid() <==> OnlyLeaks(old(mem[..]), old(blocks), i, Top()))
      ensures Untouched(old(mem[..]), mem[..], Others(old(blocks), i)) <==>
        (i == 0 || Spares(old(mem[..]), old(blocks), i, Top()))
    {
      ghost var m, bs := mem[..], blocks;
      var h := ptr - HEADER;
      var fhp := PrevAdjacent(h, i);
      var fhn := NextAdjacent(h, i);
      FirstBlock(blocks, Top(), i);
      if i > 0 {
        MisfreedUntouched(m, first, bs, i, Top());
        MisfreedSound(m, first, bs, i, Top());
      }
      ok := Coalesce(h, fhp, fhn, i);
    }

    // ----- Runs -----

    ghost function Snapshot(): Now
      reads this, mem
    {
      Now(mem[..], first, State(blocks, pages, maxpages))
    }

    lemma ValidNow()
      requires Valid()
      ensures SoundNow(Snapshot())
    {
    }

    /** A call, as one step of a run. */
    method Make(c: Call) returns (ok: bool)
      requires Valid() && Proper(Snapshot().state, OpOf(c)) && (c.Malloc? ==> c.size <= MAX_REQUEST)
      modifies this, mem
      ensures Made(old(Snapshot()), OpOf(c), Snapshot(), ok)
      ensures Safe(old(Snapshot()), OpOf(c)) ==> Valid()
    {
      match c {
        case Malloc(size) =>
          ok := true;
          MakeAlloc(size, Round16(size) / WORD);
        case Dispose(ptr) =>
          ok := MakeFree(ptr, Find(blocks, ptr - HEADER));
      }
    }

    method MakeAlloc(size: nat, ghost n: nat)
      requires Valid() && size <= MAX_REQUEST && n == Round16(size) / WORD && n % 2 == 1
      modifies this, mem
      ensures Made(old(Snapshot()), Request(n), Snapshot(), true)
      ensures Safe(old(Snapshot()), Request(n)) ==> Valid()
    {
      ghost var h := Snapshot();
      ValidNow();
      var ptr := Alloc(size);
      AllocDoes(h, n, Snapshot(), Valid());
    }

    method MakeFree(ptr: int, ghost i: nat) returns (ok: bool)
      requires Valid() && i < |blocks| && blocks[i].used && ptr == blocks[i].addr + HEADER
      requires i == Find(blocks, ptr - HEADER)
      modifies this, mem
      ensures Made(old(Snapshot()), Give(ptr - HEADER), Snapshot(), ok)
      ensures Safe(old(Snapshot()), Give(ptr - HEADER)) ==> Valid()
    {
      ghost var h := Snapshot();
      ValidNow();
      ok := Free(ptr, i);
      if i == 0 { FreeFirstDoes(h, Snapshot(), ok); } else { FreeLaterDoes(h, i, Snapshot(), ok); }
    }
  }

  lemma SameReleased(m: seq<int>, m': seq<int>, first': int, m'': seq<int>, first'': int, bs: seq<Block>, i: nat,
                     hi: int)
    requires i < |bs| && |m| >= HEAP_HEADER && Released(m, m', first', bs, i, hi) && m'' == m' && first'' == first'
    ensures Released(m, m'', first'', bs, i, hi)
  {
  }

  /** The stores of a merge with a previous block, true or one word too low, are in range. */
  lemma MergeBackRoom(m: seq<int>, first: int, bs: seq<Block>, i: nat, hi: int, fhp: int)
    requires Inv(m, first, bs, hi) && 0 < i < |bs| && bs[i].used && m[HEAP_HEADER - 1] >= 0
    requires fhp == bs[i - 1].addr - 1 || (fhp == bs[i - 1].addr && !bs[i - 1].used)
    ensures var h, fhn := bs[i].addr, NextFreeHeader(bs, i);
      && 0 <= h < |m| && 0 <= fhn < |m| && 0 <= fhp < |m| && m[fhp] >= 0
      && Swallowed(m, h, fhn) >= WORD * TAGS && fhp != h && fhp != fhn
      && fhp < hi && (fhn != 0 ==> CanUnlink(m, fhp, fhn))
    ensures PrevFreeHeader(bs, i) == if bs[i - 1].used then 0 else bs[i - 1].addr
    ensures bs[i - 1].addr > 1
  {
    MergeRanges(m, first, bs, i, hi);
    if fhp == bs[i - 1].addr { MergeDone(m, first, bs, i, hi); } else { MisfreeRoom(m, first, bs, i, hi); }
  }

  /** What a merge with a previous block one word too low has stored, whether its last store was made or not. */
  lemma WrongStores(m: seq<int>, first: int, bs: seq<Block>, i: nat, hi: int, m': seq<int>, ok: bool)
    requires Inv(m, first, bs, hi) && 0 < i < |bs| && bs[i].used && m[HEAP_HEADER - 1] >= 0
    requires CanMisfree(m, bs, i)
    requires
      var fhp, fhn := WrongHeader(bs, i), NextFreeHeader(bs, i);
      var bytes := Swallowed(m, bs[i].addr, fhn);
      && (ok <==> fhp + (m[fhp] + bytes) / WORD + HEADER < hi)
      && (ok ==> CanMerge(m, fhp, fhn, bytes) && m' == Merge(m, fhp, fhn, bytes))
      && (!ok ==> m' == (if fhn != 0 then Unlink(m, fhp, fhn) else m)[fhp := m[fhp] + bytes])
    ensures m' == Misfreed(m, bs, i, hi) && (ok <==> Landing(m, bs, i) < hi)
    ensures ok ==> !Inv(m', first, Release(bs, i), hi)
  {
    MisfreeRoom(m, first, bs, i, hi);
    MergeMisfrees(m, bs, i, hi);
    MisplacedMerge(m, first, bs, i, hi);
  }

  /** What heap_alloc guarantees, as a step of a run. */
  lemma AllocDoes(h: Now, n: nat, h': Now, valid: bool)
    requires SoundNow(h) && n % 2 == 1 && Untouched(h.mem, h'.mem, h.state.bs)
    requires valid <==> (
      && 0 < h'.state.pages <= h'.state.maxpages && |h'.mem| == h'.state.maxpages * PAGE_WORDS
      && Inv(h'.mem, h'.first, h'.state.bs, h'.state.pages * PAGE_WORDS) && h'.mem[HEAP_HEADER - 1] >= 0)
    requires !Fits(h.state.bs, h.state.pages, h.state.maxpages, n) ==> h' == h
    requires Fits(h.state.bs, h.state.pages, h.state.maxpages, n) ==>
      var bs, i := Site(h.state.bs, h.state.pages, h.state.maxpages, n),
        SiteIndex(h.state.bs, h.state.pages, h.state.maxpages, n);
      && 0 <= i < |bs| && h'.state.bs == Carve(bs, i, n) && h'.state.maxpages == h.state.maxpages
      && h'.state.pages == h.state.pages + (if FirstFit(h.state.bs, n) < |h.state.bs| then 0
                                            else GrowthPages(h.state.pages, h.state.maxpages, n))
      && (valid <==> bs[i].size != n + 1 + TAGS)
    ensures Made(h, Request(n), h', true) && (Safe(h, Request(n)) ==> valid)
  {
    StepSound(h.state, Request(n));
    UntouchedLive(h.mem, h'.mem, h.state.bs);
  }

  lemma UntouchedLive(m: seq<int>, m': seq<int>, bs: seq<Block>)
    requires Untouched(m, m', bs)
    ensures forall b :: b in Live(bs) ==> SamePayload(m, m', b)
  {
    forall b | b in Live(bs)
      ensures SamePayload(m, m', b)
    {
      var j :| 0 <= j < |bs| && bs[j] == b;
    }
  }

  /** What heap_free guarantees for the heap's first block, as a step of a run. */
  lemma FreeFirstDoes(h: Now, h': Now, ok: bool)
    requires SoundNow(h) && h.state.bs[0].used && Find(h.state.bs, h.state.bs[0].addr) == 0 && ok
    requires Inv(h'.mem, h'.first, Release(h.state.bs, 0), h.state.pages * PAGE_WORDS) <==> !Stranded(h.state.bs, 0)
    requires h'.state == h.state.(bs := Release(h.state.bs, 0)) && Untouched(h.mem, h'.mem, Others(h.state.bs, 0))
    requires !Stranded(h.state.bs, 0) ==> h'.mem[HEAP_HEADER - 1] >= 0
    ensures Made(h, Give(h.state.bs[0].addr), h', ok) && (Safe(h, Give(h.state.bs[0].addr)) ==> SoundNow(h'))
  {
    StepSound(h.state, Give(h.state.bs[0].addr));
    FirstByAddress(h.state.bs, h.state.pages * PAGE_WORDS, h.state.bs[0]);
    OthersKept(h.mem, h'.mem, h.state.bs, 0, h.state.pages * PAGE_WORDS);
  }

  /** What it guarantees for any other block. */
  lemma FreeLaterDoes(h: Now, i: nat, h': Now, ok: bool)
    requires SoundNow(h) && 0 < i < |h.state.bs| && h.state.bs[i].used && Find(h.state.bs, h.state.bs[i].addr) == i
    requires var bs, hi := h.state.bs, h.state.pages * PAGE_WORDS;
      && h'.state == h.state && |h'.mem| == |h.mem| && !(ok && Inv(h'.mem, h'.first, Release(bs, i), hi))
      && CanMisfree(h.mem, bs, i) && (ok <==> Landing(h.mem, bs, i) < hi)
      && (SoundNow(h') <==> OnlyLeaks(h.mem, bs, i, hi))
      && (Untouched(h.mem, h'.mem, Others(bs, i)) <==> Spares(h.mem, bs, i, hi))
    ensures Made(h, Give(h.state.bs[i].addr), h', ok) && (Safe(h, Give(h.state.bs[i].addr)) ==> SoundNow(h'))
  {
    FirstByAddress(h.state.bs, h.state.pages * PAGE_WORDS, h.state.bs[i]);
    OthersKept(h.mem, h'.mem, h.state.bs, i, h.state.pages * PAGE_WORDS);
  }

  /** The other allocated blocks are the live allocations at other addresses. */
  lemma OthersKept(m: seq<int>, m': seq<int>, bs: seq<Block>, i: nat, hi: int)
    requires Shape(bs, hi) && i < |bs| && |m'| == |m|
    ensures Untouched(m, m', Others(bs, i)) <==>
      forall b :: b in Live(bs) && b.addr != bs[i].addr ==> SamePayload(m, m', b)
  {
    var others := Others(bs, i);
    forall k | 0 <= k < |others|
      ensures others[k] in bs && others[k].addr != bs[i].addr
    {
      var j := if k < i then k else k + 1;
      assert others[k] == bs[j];
      SpreadOf(bs, HEAP_HEADER, hi);
      assert if j < i then bs[j].End() <= bs[i].addr else bs[i].End() <= bs[j].addr;
    }
    if Untouched(m, m', others) {
      forall b | b in Live(bs) && b.addr != bs[i].addr
        ensures SamePayload(m, m', b)
      {
        var j :| 0 <= j < |bs| && bs[j] == b;
        assert others[if j < i then j else j - 1] == b;
      }
    } else {
      var k, w :| 0 <= k < |others| && others[k].used && 0 <= w < |m| && others[k].Payload(w) && m'[w] != m[w];
      assert others[k] in Live(bs) && !SamePayload(m, m', others[k]);
    }
  }
}
