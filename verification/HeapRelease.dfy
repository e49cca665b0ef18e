/** What the word stores of heap_free achieve. */
module HeapRelease {
  import opened HeapBlocks
  import opened HeapLinks
  import opened HeapSteps

  /** In a sound heap, the free blocks around position k point at each other, or at block k if it is free. */
  lemma LinksAround(m: seq<int>, first: int, bs: seq<Block>, hi: int, k: nat)
    requires Inv(m, first, bs, hi) && k < |bs|
    ensures
      var prev, next := LastFree(bs[..k]), FirstFree(bs[k + 1..]);
      && (prev == 0 || (HEAP_HEADER <= prev < bs[k].addr - 3 && prev < |m| - 3
            && m[prev + 2] == (if bs[k].used then next else bs[k].addr)))
      && (next == 0 || (bs[k].End() <= next < hi - 3 && 0 < next
            && m[next + 3] == (if bs[k].used then prev else bs[k].addr)))
      && (prev == 0 ==> first == if bs[k].used then next else bs[k].addr)
  {
    Parts(bs, hi, k, k + 1);
    TiledAt(bs, HEAP_HEADER, hi, k);
    PrevSide(m, first, bs, hi, k);
    NextSide(m, first, bs, hi, k);
  }

  lemma PrevSide(m: seq<int>, first: int, bs: seq<Block>, hi: int, k: nat)
    requires Inv(m, first, bs, hi) && k < |bs|
    ensures
      var prev, next := LastFree(bs[..k]), FirstFree(bs[k + 1..]);
      && (prev != 0 ==> 0 <= prev < |m| - 2 && m[prev + 2] == if bs[k].used then next else bs[k].addr)
      && (prev == 0 ==> first == if bs[k].used then next else bs[k].addr)
  {
    var l := ListStepBack(m, first, bs, hi, k);
    assert bs[0..] == bs;
    FirstFreeSkip(bs, l + 1, if bs[k].used then k + 1 else k);
  }

  lemma NextSide(m: seq<int>, first: int, bs: seq<Block>, hi: int, k: nat)
    requires Inv(m, first, bs, hi) && k < |bs|
    ensures
      var prev, next := LastFree(bs[..k]), FirstFree(bs[k + 1..]);
      next != 0 ==> 0 <= next < |m| - 3 && m[next + 3] == if bs[k].used then prev else bs[k].addr
  {
    var n := ListStep(m, first, bs, hi, k + 1);
    LastFreeSkip(bs, if bs[k].used then k else k + 1, n);
  }

  /** The stores of a release stay inside the merged blocks lo..end and the links around them. */
  ghost predicate ReleaseStores(m: seq<int>, m': seq<int>, lo: int, end: int, prev: int, next: int)
    requires |m'| == |m|
  {
    forall w | 0 <= w < |m| && !(lo <= w < end) && w != prev + 2 && w != next + 3 :: m'[w] == m[w]
  }

  /** The stores of a release, when they say what the merged block is and link it. */
  lemma ReleaseDone(m: seq<int>, m': seq<int>, first: int, first': int, bs: seq<Block>, i: nat, hi: int)
    requires Inv(m, first, bs, hi) && i < |bs| && bs[i].used && |m'| == |m|
    requires
      var k, l := ReleaseFrom(bs, i), ReleaseTo(bs, i);
      && Tagged(m', Merged(bs, k, l))
      && Relinked(m', first, first', LastFree(bs[..k]), FirstFree(bs[l..]), bs[k].addr)
      && ReleaseStores(m, m', bs[k].addr, bs[l - 1].End(), LastFree(bs[..k]), FirstFree(bs[l..]))
    ensures Inv(m', first', Release(bs, i), hi)
    ensures Untouched(m, m', bs[..i] + bs[i + 1..])
  {
    var k, l := ReleaseFrom(bs, i), ReleaseTo(bs, i);
    assert Inv(m', first', Release(bs, i), hi) && Untouched(m, m', bs[..k] + bs[l..]) by {
      LeftOfInv(m, first, bs, hi, k);
      RightOfInv(m, first, bs, hi, l);
      RoomyOfInv(m, first, bs, hi);
      ReleaseShape(bs, i, HEAP_HEADER, hi);
      assert bs[l - 1].End() == Start(bs, l, hi) by { TiledAt(bs, HEAP_HEADER, hi, l - 1); }
      Replace(m, m', first, first', bs, k, l, [Merged(bs, k, l)], bs[k].addr, Release(bs, i), hi);
    }
    OthersUntouched(m, m', bs, i);
  }

  lemma OthersUntouched(m: seq<int>, m': seq<int>, bs: seq<Block>, i: nat)
    requires i < |bs| && Untouched(m, m', bs[..ReleaseFrom(bs, i)] + bs[ReleaseTo(bs, i)..])
    ensures Untouched(m, m', bs[..i] + bs[i + 1..])
  {
    var k, l := ReleaseFrom(bs, i), ReleaseTo(bs, i);
    var r, r' := bs[..k] + bs[l..], bs[..i] + bs[i + 1..];
    forall j, w | 0 <= j < |r'| && r'[j].used && 0 <= w < |m| && r'[j].Payload(w)
      ensures m'[w] == m[w]
    {
      if j < i {
        assert r'[j] == bs[j] && r[j] == bs[j];
      } else {
        assert r'[j] == bs[j + 1] && r[j + 1 - (l - k)] == bs[j + 1];
      }
    }
  }

  // ----- Merging with both neighbours, or with the previous one only -----

  /** Free block fhp is to swallow `bytes` more bytes. */
  predicate CanExtend(m: seq<int>, fhp: int, bytes: int) {
    && 0 <= fhp < |m| - 2 && m[fhp] >= 0 && bytes >= WORD * TAGS
    && fhp + (m[fhp] + bytes) / WORD + HEADER < |m|
  }

  /** Sets the size of the block at fhp, in its header and in the footer that this size leads to. */
  function Extend(m: seq<int>, fhp: int, bytes: int): (m': seq<int>)
    requires CanExtend(m, fhp, bytes)
    ensures |m'| == |m|
  {
    var size := m[fhp] + bytes;
    m[fhp := size][fhp + size / WORD + HEADER := size]
  }

  /** Takes the next link over from fhn to fhp. */
  predicate CanUnlink(m: seq<int>, fhp: int, fhn: int) {
    && 0 <= fhp < fhn - 2 && fhn < |m| - 3
    && (m[fhn + 2] == 0 || fhn + 3 < m[fhn + 2] < |m| - 3)
  }

  function Unlink(m: seq<int>, fhp: int, fhn: int): (m': seq<int>)
    requires CanUnlink(m, fhp, fhn)
    ensures |m'| == |m|
  {
    var next := m[fhn + 2];
    var m1 := m[fhp + 2 := next];
    if next != 0 then m1[next + 3 := fhp] else m1
  }

  /** The stores of a merge with the "previous block" at fhp and, if fhn is not 0, the next block. */
  predicate CanMerge(m: seq<int>, fhp: int, fhn: int, bytes: int) {
    if fhn != 0 then CanUnlink(m, fhp, fhn) && CanExtend(Unlink(m, fhp, fhn), fhp, bytes)
    else CanExtend(m, fhp, bytes)
  }

  function Merge(m: seq<int>, fhp: int, fhn: int, bytes: int): (m': seq<int>)
    requires CanMerge(m, fhp, fhn, bytes)
    ensures |m'| == |m|
  {
    if fhn != 0 then Extend(Unlink(m, fhp, fhn), fhp, bytes) else Extend(m, fhp, bytes)
  }

  /** The bytes swallowed when block i is released, the next block being taken for free if fhn is not 0. */
  function Swallowed(m: seq<int>, h: int, fhn: int): int
    requires 0 <= h < |m| && 0 <= fhn < |m|
  {
    if fhn != 0 then m[h] + 2 * WORD * TAGS + m[fhn] else m[h] + WORD * TAGS
  }

  /** The next block's header if that block is free, or 0. */
  function NextFreeHeader(bs: seq<Block>, i: nat): int
    requires i < |bs|
  {
    if i + 1 < |bs| && !bs[i + 1].used then bs[i + 1].addr else 0
  }

  /** The previous block's header if that block is free, or 0. */
  function PrevFreeHeader(bs: seq<Block>, i: nat): int
    requires i < |bs|
  {
    if i > 0 && !bs[i - 1].used then bs[i - 1].addr else 0
  }

  /** A block of 8 bytes between allocated blocks: too small for the links of a free block. */
  predicate Stranded(bs: seq<Block>, i: nat)
    requires i < |bs|
  {
    bs[i].size == 1 && PrevFreeHeader(bs, i) == 0 && NextFreeHeader(bs, i) == 0
  }

  /** Memory m' has block i released, unless the block was stranded. */
  ghost predicate Released(m: seq<int>, m': seq<int>, first': int, bs: seq<Block>, i: nat, hi: int)
    requires i < |bs| && |m| >= HEAP_HEADER
  {
    && |m'| == |m|
    && (Inv(m', first', Release(bs, i), hi) <==> !Stranded(bs, i))
    && Untouched(m, m', bs[..i] + bs[i + 1..])
    && m'[HEAP_HEADER - 1] == m[HEAP_HEADER - 1]
  }

  /** Merging with the previous block, which is free, releases block i. */
  ghost predicate MergeReleases(m: seq<int>, first: int, bs: seq<Block>, i: nat, hi: int)
    requires 0 < i < |bs| && 0 <= bs[i].addr < |m| && HEAP_HEADER <= bs[i - 1].addr < |m|
    requires 0 <= NextFreeHeader(bs, i) < |m|
  {
    var fhp, fhn := bs[i - 1].addr, NextFreeHeader(bs, i);
    var bytes := Swallowed(m, bs[i].addr, fhn);
    && bytes >= WORD * TAGS && m[fhp] >= 0 && fhp + (m[fhp] + bytes) / WORD + HEADER < hi
    && CanMerge(m, fhp, fhn, bytes)
    && Released(m, Merge(m, fhp, fhn, bytes), first, bs, i, hi)
  }

  lemma PrevDone(m: seq<int>, first: int, bs: seq<Block>, i: nat, hi: int)
    requires Inv(m, first, bs, hi) && 0 < i < |bs| && bs[i].used && !bs[i - 1].used
    requires i + 1 < |bs| ==> bs[i + 1].used
    ensures 0 <= bs[i].addr < |m| && HEAP_HEADER <= bs[i - 1].addr < |m| && MergeReleases(m, first, bs, i, hi)
  {
    PrevBlocks(m, first, bs, hi, i);
    var fhp, bytes := bs[i - 1].addr, m[bs[i].addr] + WORD * TAGS;
    PrevWords(m, first, Merged(bs, i - 1, i + 1), LastFree(bs[..i - 1]), FirstFree(bs[i + 1..]), bytes);
    assert NextFreeHeader(bs, i) == 0 && Swallowed(m, bs[i].addr, 0) == bytes;
    var m' := Merge(m, fhp, 0, bytes);
    ReleaseDone(m, m', first, first, bs, i, hi);
  }

  lemma PrevWords(m: seq<int>, first: int, b: Block, prev: int, next: int, bytes: int)
    requires 0 < b.addr && b.End() <= |m| && b.size >= 3 && !b.used
    requires prev == 0 || 0 < prev < b.addr - 3
    requires next == 0 || b.End() <= next < |m| - 3
    requires m[b.addr] >= 0 && bytes >= WORD * TAGS && m[b.addr] + bytes == WORD * b.size && m[b.addr + 1] % 2 == 0
    requires m[b.addr + 2] == next && m[b.addr + 3] == prev
    requires prev != 0 ==> m[prev + 2] == b.addr
    requires next != 0 ==> m[next + 3] == b.addr
    requires prev == 0 ==> first == b.addr
    ensures CanExtend(m, b.addr, bytes)
    ensures b.size > 3 ==> var m' := Extend(m, b.addr, bytes);
      && Tagged(m', b) && Relinked(m', first, first, prev, next, b.addr)
      && ReleaseStores(m, m', b.addr, b.End(), prev, next)
  {
  }

  lemma NextAfter(bs: seq<Block>, hi: int, i: nat)
    requires Tiled(bs, HEAP_HEADER, hi) && i < |bs|
    ensures var next := FirstFree(bs[i + 1..]); next == 0 || bs[i].End() <= next < hi - 3
  {
    Parts(bs, hi, i, i + 1);
    TiledAt(bs, HEAP_HEADER, hi, i);
  }

  lemma PrevBlocks(m: seq<int>, first: int, bs: seq<Block>, hi: int, i: nat)
    requires Inv(m, first, bs, hi) && 0 < i < |bs| && bs[i].used && !bs[i - 1].used
    ensures
      var prev, next := LastFree(bs[..i - 1]), FirstFree(bs[i + 1..]);
      var p, b := bs[i - 1], bs[i];
      && HEAP_HEADER <= p.addr && p.End() == b.addr && b.End() <= hi && p.size >= 3 && b.size >= 1
      && (prev == 0 || HEAP_HEADER <= prev < p.addr - 3)
      && (next == 0 || b.End() <= next < hi - 3)
      && m[p.addr] == WORD * p.size && m[p.addr + 1] % 2 == 0 && m[b.addr] == WORD * b.size
      && m[p.addr + 2] == next && m[p.addr + 3] == prev
      && (prev != 0 ==> m[prev + 2] == p.addr)
      && (next != 0 ==> m[next + 3] == p.addr)
      && (prev == 0 ==> first == p.addr)
  {
    BlockWords(m, first, bs, hi, i - 1);
    BlockWords(m, first, bs, hi, i);
    assert FirstFree(bs[i..]) == FirstFree(bs[i + 1..]) by { FirstFreeSkip(bs, i, i + 1); }
    LinksAround(m, first, bs, hi, i - 1);
    NextAfter(bs, hi, i);
  }

  /** What the words of one block say. */
  lemma BlockWords(m: seq<int>, first: int, bs: seq<Block>, hi: int, k: nat)
    requires Inv(m, first, bs, hi) && k < |bs|
    ensures
      var b := bs[k];
      && HEAP_HEADER <= b.addr && b.size >= 1 && b.End() == Start(bs, k + 1, hi) <= hi
      && m[b.addr] == WORD * b.size && m[b.addr + 1] % 2 == (if b.used then 1 else 0)
      && (!b.used ==> b.size >= 3 && m[b.addr + 2] == FirstFree(bs[k + 1..]) && m[b.addr + 3] == LastFree(bs[..k]))
  {
    Parts(bs, hi, k, k + 1);
    TiledAt(bs, HEAP_HEADER, hi, k);
    assert Tagged(m, bs[k]);
    if !bs[k].used {
      FreeWords(m, first, bs, hi, k);
      FreeBlocksRoomy(m, first, bs, hi, k);
    }
  }

  /** The words of a three-way merge, for a merged block b of which fhn is part. */
  lemma BothWords(m: seq<int>, first: int, b: Block, prev: int, next: int, fhn: int, bytes: int)
    requires 0 < b.addr < fhn - 3 && fhn + 6 <= b.End() <= |m| && b.size >= 3 && !b.used
    requires prev == 0 || 0 < prev < b.addr - 3
    requires next == 0 || b.End() <= next < |m| - 3
    requires m[b.addr] >= 0 && bytes >= WORD * TAGS && m[b.addr] + bytes == WORD * b.size && m[b.addr + 1] % 2 == 0
    requires m[b.addr + 3] == prev && m[fhn + 2] == next
    requires prev != 0 ==> m[prev + 2] == b.addr
    requires prev == 0 ==> first == b.addr
    ensures CanUnlink(m, b.addr, fhn) && CanExtend(Unlink(m, b.addr, fhn), b.addr, bytes)
    ensures var m' := Extend(Unlink(m, b.addr, fhn), b.addr, bytes);
      && Tagged(m', b) && Relinked(m', first, first, prev, next, b.addr)
      && ReleaseStores(m, m', b.addr, b.End(), prev, next)
  {
  }

  lemma BothDone(m: seq<int>, first: int, bs: seq<Block>, i: nat, hi: int)
    requires Inv(m, first, bs, hi) && 0 < i < |bs| - 1 && bs[i].used && !bs[i - 1].used && !bs[i + 1].used
    ensures 0 <= bs[i].addr < |m| && HEAP_HEADER <= bs[i - 1].addr < |m| && 0 <= NextFreeHeader(bs, i) < |m|
    ensures MergeReleases(m, first, bs, i, hi)
  {
    var fhp, fhn := bs[i - 1].addr, bs[i + 1].addr;
    ThreeBlocks(m, first, bs, hi, i);
    var b := Merged(bs, i - 1, i + 2);
    var prev, next := LastFree(bs[..i - 1]), FirstFree(bs[i + 2..]);
    var bytes := m[bs[i].addr] + 2 * WORD * TAGS + m[fhn];
    BothWords(m, first, b, prev, next, fhn, bytes);
    assert NextFreeHeader(bs, i) == fhn && Swallowed(m, bs[i].addr, fhn) == bytes;
    var m' := Merge(m, fhp, fhn, bytes);
    ReleaseDone(m, m', first, first, bs, i, hi);
  }

  lemma ThreeBlocks(m: seq<int>, first: int, bs: seq<Block>, hi: int, i: nat)
    requires Inv(m, first, bs, hi) && 0 < i < |bs| - 1 && bs[i].used && !bs[i - 1].used && !bs[i + 1].used
    ensures
      var prev, next := LastFree(bs[..i - 1]), FirstFree(bs[i + 2..]);
      var p, b, n := bs[i - 1], bs[i], bs[i + 1];
      && HEAP_HEADER <= p.addr && p.End() == b.addr && b.End() == n.addr && n.End() <= hi
      && p.size >= 3 && b.size >= 1 && n.size >= 3
      && (prev == 0 || HEAP_HEADER <= prev < p.addr - 3)
      && (next == 0 || n.End() <= next < hi - 3)
      && m[p.addr] == WORD * p.size && m[p.addr + 1] % 2 == 0
      && m[b.addr] == WORD * b.size && m[n.addr] == WORD * n.size
      && m[p.addr + 3] == prev && m[n.addr + 2] == next
      && (prev != 0 ==> m[prev + 2] == p.addr)
      && (prev == 0 ==> first == p.addr)
  {
    var p, b, n, prev := bs[i - 1], bs[i], bs[i + 1], LastFree(bs[..i - 1]);
    assert HEAP_HEADER <= p.addr && p.End() == b.addr && p.size >= 3
        && m[p.addr] == WORD * p.size && m[p.addr + 1] % 2 == 0 && m[p.addr + 3] == prev by {
      BlockWords(m, first, bs, hi, i - 1);
    }
    assert b.End() == n.addr && b.size >= 1 && m[b.addr] == WORD * b.size by { BlockWords(m, first, bs, hi, i); }
    BlockWords(m, first, bs, hi, i + 1);
    assert (prev == 0 || HEAP_HEADER <= prev < p.addr - 3)
        && (prev != 0 ==> m[prev + 2] == p.addr) && (prev == 0 ==> first == p.addr) by {
      LinksAround(m, first, bs, hi, i - 1);
    }
    NextAfter(bs, hi, i + 1);
  }

  // ----- Merging with the next block only, or with none -----

  /** The block at h takes free block fhn's place on the free list, and its bytes. */
  predicate CanAbsorb(m: seq<int>, h: int, fhn: int) {
    && 0 <= h < fhn - 3 && fhn < |m| - 3
    && m[h] >= WORD && m[fhn] >= WORD && h + (m[h] + m[fhn] + WORD * TAGS) / WORD + HEADER < |m|
    && (m[fhn + 3] == 0 || 0 < m[fhn + 3] < h - 3)
    && (m[fhn + 2] == 0 || fhn + 3 < m[fhn + 2] < |m| - 3)
  }

  function Absorb(m: seq<int>, h: int, fhn: int): (m': seq<int>)
    requires CanAbsorb(m, h, fhn)
    ensures |m'| == |m|
  {
    var size, prev, next := m[h] + m[fhn] + WORD * TAGS, m[fhn + 3], m[fhn + 2];
    Relink(m[h := size][h + 1 := 0], h, prev, next)[h + size / WORD + HEADER := size]
  }

  /** Links the block at h between the free blocks prev and next. */
  predicate CanRelink(m: seq<int>, h: int, prev: int, next: int) {
    && 0 <= h < |m| - 3
    && (prev == 0 || 0 < prev < h - 3)
    && (next == 0 || h + 3 < next < |m| - 3)
  }

  function Relink(m: seq<int>, h: int, prev: int, next: int): (m': seq<int>)
    requires CanRelink(m, h, prev, next)
    ensures |m'| == |m|
  {
    var m1 := m[h + 2 := next][h + 3 := prev];
    var m2 := if next != 0 then m1[next + 3 := h] else m1;
    if prev != 0 then m2[prev + 2 := h] else m2
  }

  lemma NextWords(m: seq<int>, first: int, b: Block, prev: int, next: int, fhn: int)
    requires 0 < b.addr < fhn - 3 && fhn + 6 <= b.End() <= |m| && b.size >= 3 && !b.used
    requires prev == 0 || 0 < prev < b.addr - 3
    requires next == 0 || b.End() <= next < |m| - 3
    requires m[b.addr] >= WORD && m[fhn] >= WORD && m[b.addr] + m[fhn] + WORD * TAGS == WORD * b.size
    requires m[fhn + 3] == prev && m[fhn + 2] == next
    ensures CanAbsorb(m, b.addr, fhn)
    ensures var m' := Absorb(m, b.addr, fhn);
      && Tagged(m', b) && Relinked(m', first, if prev == 0 then b.addr else first, prev, next, b.addr)
      && ReleaseStores(m, m', b.addr, b.End(), prev, next)
  {
  }

  lemma NextDone(m: seq<int>, first: int, bs: seq<Block>, i: nat, hi: int) returns (m': seq<int>, first': int)
    requires Inv(m, first, bs, hi) && i < |bs| - 1 && bs[i].used && !bs[i + 1].used
    requires i > 0 ==> bs[i - 1].used
    ensures var h, fhn := bs[i].addr, bs[i + 1].addr;
      && HEAP_HEADER <= h && CanAbsorb(m, h, fhn) && h + (m[h] + m[fhn] + WORD * TAGS) / WORD + HEADER < hi
      && m' == Absorb(m, h, fhn) && first' == if m[fhn + 3] == 0 then h else first
    ensures Released(m, m', first', bs, i, hi)
  {
    var h, fhn := bs[i].addr, bs[i + 1].addr;
    var b := Merged(bs, i, i + 2);
    var prev, next := LastFree(bs[..i]), FirstFree(bs[i + 2..]);
    TwoBlocks(m, first, bs, hi, i);
    NextWords(m, first, b, prev, next, fhn);
    m', first' := Absorb(m, h, fhn), if prev == 0 then h else first;
    ReleaseDone(m, m', first, first', bs, i, hi);
  }

  lemma TwoBlocks(m: seq<int>, first: int, bs: seq<Block>, hi: int, i: nat)
    requires Inv(m, first, bs, hi) && i < |bs| - 1 && bs[i].used && !bs[i + 1].used
    ensures
      var prev, next := LastFree(bs[..i]), FirstFree(bs[i + 2..]);
      var b, n := bs[i], bs[i + 1];
      && HEAP_HEADER <= b.addr && b.End() == n.addr && n.End() <= hi && b.size >= 1 && n.size >= 3
      && (prev == 0 || HEAP_HEADER <= prev < b.addr - 3)
      && (next == 0 || n.End() <= next < hi - 3)
      && m[b.addr] == WORD * b.size && m[n.addr] == WORD * n.size
      && m[n.addr + 3] == prev && m[n.addr + 2] == next
  {
    BlockWords(m, first, bs, hi, i);
    BlockWords(m, first, bs, hi, i + 1);
    LastFreeSkip(bs, i, i + 1);
    assert Start(bs, i + 2, hi) == bs[i + 1].End() by { TiledAt(bs, HEAP_HEADER, hi, i + 1); }
    Parts(bs, hi, i, i + 2);
  }

  lemma AloneWords(m: seq<int>, first: int, b: Block, prev: int, next: int) returns (m': seq<int>, first': int)
    requires 0 < b.addr && b.End() <= |m| && b.size >= 1 && !b.used
    requires prev == 0 || 0 < prev < b.addr - 3
    requires next == 0 || b.End() <= next < |m| - 3
    requires m[b.addr] == WORD * b.size && m[b.addr + HEADER + b.size] == WORD * b.size && prev != WORD
    ensures CanRelink(m, b.addr, prev, next) && m' == Relink(m[b.addr + 1 := 0], b.addr, prev, next)
    ensures first' == if prev == 0 then b.addr else first
    ensures Relinked(m', first, first', prev, next, b.addr) && ReleaseStores(m, m', b.addr, b.End(), prev, next)
    ensures b.size > 1 <==> Tagged(m', b)
  {
    m' := Relink(m[b.addr + 1 := 0], b.addr, prev, next);
    first' := if prev == 0 then b.addr else first;
  }

  lemma AloneDone(m: seq<int>, first: int, bs: seq<Block>, i: nat, hi: int) returns (m': seq<int>, first': int)
    requires Inv(m, first, bs, hi) && i < |bs| && bs[i].used
    requires PrevFreeHeader(bs, i) == 0 && NextFreeHeader(bs, i) == 0
    ensures HEAP_HEADER <= bs[i].addr < |m| - 3 && CanRelink(m, bs[i].addr, LastFree(bs[..i]), FirstFree(bs[i + 1..]))
    ensures var h, prev, next := bs[i].addr, LastFree(bs[..i]), FirstFree(bs[i + 1..]);
      m' == Relink(m[h + 1 := 0], h, prev, next) && first' == if prev == 0 then h else first
    ensures Released(m, m', first', bs, i, hi)
  {
    OneBlock(m, first, bs, hi, i);
    var b, prev, next := Block(bs[i].addr, bs[i].size, false), LastFree(bs[..i]), FirstFree(bs[i + 1..]);
    m', first' := AloneWords(m, first, b, prev, next);
    assert ReleaseFrom(bs, i) == i && ReleaseTo(bs, i) == i + 1 by { SpreadOf(bs, HEAP_HEADER, hi); }
    AloneReleased(m, m', first, first', bs, i, hi, b, prev, next);
  }

  lemma AloneReleased(m: seq<int>, m': seq<int>, first: int, first': int, bs: seq<Block>, i: nat, hi: int,
                      b: Block, prev: int, next: int)
    requires Inv(m, first, bs, hi) && i < |bs| && bs[i].used && |m'| == |m|
    requires ReleaseFrom(bs, i) == i && ReleaseTo(bs, i) == i + 1
    requires b == Block(bs[i].addr, bs[i].size, false) && prev == LastFree(bs[..i]) && next == FirstFree(bs[i + 1..])
    requires b.size > 1 <==> Tagged(m', b)
    requires Relinked(m', first, first', prev, next, b.addr) && ReleaseStores(m, m', b.addr, b.End(), prev, next)
    ensures |m| >= HEAP_HEADER && Released(m, m', first', bs, i, hi)
  {
    assert HEAP_HEADER <= |m| && m'[HEAP_HEADER - 1] == m[HEAP_HEADER - 1] by { Parts(bs, hi, i, i + 1); }
    ReleaseUntouched(m, m', bs, i, hi);
    assert Merged(bs, i, i + 1) == b;
    if b.size > 1 {
      ReleaseDone(m, m', first, first', bs, i, hi);
    } else {
      assert b.size == 1 by { TiledAt(bs, HEAP_HEADER, hi, i); }
      StrandedBroken(m', first', bs, i, hi);
    }
  }

  lemma StrandedBroken(m: seq<int>, first: int, bs: seq<Block>, i: nat, hi: int)
    requires i < |bs| && Stranded(bs, i) && bs[i].used
    requires i + 1 < |bs| ==> bs[i + 1].used
    requires i > 0 ==> bs[i - 1].used
    requires !Tagged(m, Merged(bs, i, i + 1))
    ensures !Inv(m, first, Release(bs, i), hi)
  {
    assert Release(bs, i)[i] == Merged(bs, i, i + 1);
    BrokenTag(m, first, Release(bs, i), hi, i);
  }

  /** No block starts at word 8: the first starts before it, the second after it. */
  lemma FreeNotWord(m: seq<int>, first: int, bs: seq<Block>, hi: int, i: nat)
    requires Inv(m, first, bs, hi) && i <= |bs|
    ensures LastFree(bs[..i]) != WORD
  {
    var l := ListStepBack(m, first, bs, hi, i);
    SpreadOf(bs, HEAP_HEADER, hi);
    if l > 0 { assert bs[0].End() <= bs[l].addr; }
  }

  lemma OneBlock(m: seq<int>, first: int, bs: seq<Block>, hi: int, i: nat)
    requires Inv(m, first, bs, hi) && i < |bs| && bs[i].used
    ensures
      var prev, next := LastFree(bs[..i]), FirstFree(bs[i + 1..]);
      var b := bs[i];
      && HEAP_HEADER <= b.addr && b.End() <= hi && b.size >= 1
      && (prev == 0 || HEAP_HEADER <= prev < b.addr - 3) && prev != WORD
      && (next == 0 || b.End() <= next < hi - 3)
      && m[b.addr] == WORD * b.size && m[b.addr + HEADER + b.size] == WORD * b.size
  {
    TiledAt(bs, HEAP_HEADER, hi, i);
    Parts(bs, hi, i, i + 1);
    assert Tagged(m, bs[i]);
    FreeNotWord(m, first, bs, hi, i);
  }

  lemma ReleaseUntouched(m: seq<int>, m': seq<int>, bs: seq<Block>, i: nat, hi: int)
    requires Tiled(bs, HEAP_HEADER, hi) && hi <= |m| == |m'| && i < |bs|
    requires ReleaseStores(m, m', bs[i].addr, bs[i].End(), LastFree(bs[..i]), FirstFree(bs[i + 1..]))
    ensures Untouched(m, m', bs[..i] + bs[i + 1..])
  {
    TiledAt(bs, HEAP_HEADER, hi, i);
    Parts(bs, hi, i, i + 1);
    UntouchedParts(m, m', bs[..i], bs[i + 1..], bs[i].addr, bs[i].End(), hi);
  }

  // ----- Merging with what the check for a free previous block really returns -----

  /** A merge one word too low changes neither the previous block's header nor anything far before it. */
  lemma MisplacedWords(m: seq<int>, p: Block, b: Block, fhn: int, bytes: int)
    requires HEAP_HEADER <= p.addr && p.size >= 1 && p.End() == b.addr && b.size >= 1 && b.End() <= |m|
    requires m[p.addr - 1] >= 0 && bytes >= WORD * TAGS
    requires fhn != 0 ==> fhn == b.End() && fhn < |m| - 3 && (m[fhn + 2] == 0 || fhn + 3 < m[fhn + 2] < |m| - 3)
    ensures fhn != 0 ==> CanUnlink(m, p.addr - 1, fhn)
    ensures CanMerge(m, p.addr - 1, fhn, bytes) ==>
      var m' := Merge(m, p.addr - 1, fhn, bytes);
      m'[p.addr] == m[p.addr] && forall w :: 0 <= w < p.addr - 1 ==> m'[w] == m[w]
  {
  }

  /**
    A previous "free block" that starts one word too low is a valid target for the stores, but
    they do not release block i.
  */
  lemma MisplacedMerge(m: seq<int>, first: int, bs: seq<Block>, i: nat, hi: int)
    requires Inv(m, first, bs, hi) && 0 < i < |bs| && bs[i].used && m[HEAP_HEADER - 1] >= 0
    ensures var fhp, fhn := bs[i - 1].addr - 1, NextFreeHeader(bs, i);
      && 0 <= fhp < |m| - 2 && m[fhp] >= 0 && 0 <= bs[i].addr < |m| && 0 <= fhn < |m|
      && Swallowed(m, bs[i].addr, fhn) >= WORD * TAGS
      && (fhn != 0 ==> CanUnlink(m, fhp, fhn))
      && (CanMerge(m, fhp, fhn, Swallowed(m, bs[i].addr, fhn)) ==>
          !Inv(Merge(m, fhp, fhn, Swallowed(m, bs[i].addr, fhn)), first, Release(bs, i), hi))
  {
    var fhp, fhn := bs[i - 1].addr - 1, NextFreeHeader(bs, i);
    MergeRoom(m, first, bs, i, hi);
    BeforeHeader(m, first, bs, hi, i - 1);
    var bytes := Swallowed(m, bs[i].addr, fhn);
    MisplacedWords(m, bs[i - 1], bs[i], fhn, bytes);
    if CanMerge(m, fhp, fhn, bytes) {
      NotReleased(m, Merge(m, fhp, fhn, bytes), first, bs, i, hi);
    }
  }

  lemma MergeRoom(m: seq<int>, first: int, bs: seq<Block>, i: nat, hi: int)
    requires Inv(m, first, bs, hi) && 0 < i < |bs| && bs[i].used
    ensures var p, b, fhn := bs[i - 1], bs[i], NextFreeHeader(bs, i);
      && HEAP_HEADER <= p.addr && p.size >= 1 && p.End() == b.addr && b.size >= 1 && b.End() <= hi
      && m[b.addr] == WORD * b.size && Tagged(m, p) && Tagged(m, b)
      && (fhn != 0 ==>
        && fhn == b.End() && fhn < hi - 3 && m[fhn] > 0
        && (m[fhn + 2] == 0 || fhn + 3 < m[fhn + 2] < hi - 3))
      && 0 <= fhn
  {
    BlockWords(m, first, bs, hi, i - 1);
    BlockWords(m, first, bs, hi, i);
    assert Tagged(m, bs[i - 1]) && Tagged(m, bs[i]);
    if NextFreeHeader(bs, i) != 0 {
      BlockWords(m, first, bs, hi, i + 1);
      Parts(bs, hi, i + 2, i + 2);
    }
  }

  /**
    A release must change the previous header, if that block is free, or else lead to the
    released block from the free block before it or from the list head.
  */
  lemma NotReleased(m: seq<int>, m': seq<int>, first: int, bs: seq<Block>, i: nat, hi: int)
    requires Inv(m, first, bs, hi) && 0 < i < |bs| && bs[i].used && |m'| == |m|
    requires 0 < bs[i - 1].addr < |m| && m'[bs[i - 1].addr] == m[bs[i - 1].addr]
    requires forall w :: 0 <= w < bs[i - 1].addr - 1 ==> m'[w] == m[w]
    ensures !Inv(m', first, Release(bs, i), hi)
  {
    if bs[i - 1].used {
      NotReached(m, m', first, bs, i, hi);
    } else {
      HeaderUnchanged(m, m', first, bs, i, hi);
    }
  }

  lemma HeaderUnchanged(m: seq<int>, m': seq<int>, first: int, bs: seq<Block>, i: nat, hi: int)
    requires Inv(m, first, bs, hi) && 0 < i < |bs| && bs[i].used && !bs[i - 1].used && |m'| == |m|
    requires 0 < bs[i - 1].addr < |m| && m'[bs[i - 1].addr] == m[bs[i - 1].addr]
    ensures !Inv(m', first, Release(bs, i), hi)
  {
    var k, l := i - 1, ReleaseTo(bs, i);
    SpreadOf(bs, HEAP_HEADER, hi);
    assert Tagged(m, bs[k]);
    assert Release(bs, i)[k] == Merged(bs, k, l);
    assert bs[i].End() <= bs[l - 1].End();
    BrokenTag(m', first, Release(bs, i), hi, k);
  }

  lemma NotReached(m: seq<int>, m': seq<int>, first: int, bs: seq<Block>, i: nat, hi: int)
    requires Inv(m, first, bs, hi) && 0 < i < |bs| && bs[i].used && bs[i - 1].used && |m'| == |m|
    requires forall w :: 0 <= w < |m| && w < bs[i - 1].addr - 1 ==> m'[w] == m[w]
    ensures !Inv(m', first, Release(bs, i), hi)
  {
    var bs' := Release(bs, i);
    assert bs'[i] == Merged(bs, i, ReleaseTo(bs, i)) && bs'[..i] == bs[..i];
    LinksAround(m, first, bs, hi, i);
    OneBlock(m, first, bs, hi, i);
    if Inv(m', first, bs', hi) {
      LinksAround(m', first, bs', hi, i);
      var l := ListStepBack(m, first, bs, hi, i);
      if l >= 0 { EarlierBlock(bs, hi, l, i); }
    }
  }

  /** A free block before the allocated block i - 1 ends before that block's header. */
  lemma EarlierBlock(bs: seq<Block>, hi: int, l: nat, i: nat)
    requires Tiled(bs, HEAP_HEADER, hi) && l < i < |bs| && !bs[l].used && bs[i - 1].used
    ensures bs[l].addr + 3 < bs[i - 1].addr
  {
    SpreadOf(bs, HEAP_HEADER, hi);
    assert bs[l].End() <= bs[i - 1].addr;
  }

  /** The word before a header is the heap's reserved word or a footer. */
  lemma BeforeHeader(m: seq<int>, first: int, bs: seq<Block>, hi: int, k: nat)
    requires Inv(m, first, bs, hi) && k < |bs| && m[HEAP_HEADER - 1] >= 0
    ensures 0 < bs[k].addr - 1 < |m| && m[bs[k].addr - 1] >= 0
  {
    SpreadOf(bs, HEAP_HEADER, hi);
    if k > 0 { assert Tagged(m, bs[k - 1]); }
  }

  lemma MergeDone(m: seq<int>, first: int, bs: seq<Block>, i: nat, hi: int)
    requires Inv(m, first, bs, hi) && 0 < i < |bs| && bs[i].used && !bs[i - 1].used
    ensures 0 <= bs[i].addr < |m| && HEAP_HEADER <= bs[i - 1].addr < |m| && 0 <= NextFreeHeader(bs, i) < |m|
    ensures MergeReleases(m, first, bs, i, hi)
  {
    if i + 1 < |bs| && !bs[i + 1].used {
      BothDone(m, first, bs, i, hi);
    } else {
      PrevDone(m, first, bs, i, hi);
    }
  }

  lemma FreedTiled(bs: seq<Block>, hi: int, i: nat)
    requires Tiled(bs, HEAP_HEADER, hi) && i < |bs|
    ensures Tiled(bs[i := Block(bs[i].addr, bs[i].size, false)], HEAP_HEADER, hi)
  {
    var b := Block(bs[i].addr, bs[i].size, false);
    TiledAt(bs, HEAP_HEADER, hi, i);
    assert [b][1..] == [];
    Retile(bs, HEAP_HEADER, hi, i, i + 1, [b], hi);
    assert bs[i := b] == bs[..i] + [b] + bs[i + 1..];
  }

  /** Clearing a block's flag makes it a free block, as far as tags and tiling go. */
  lemma FreedTags(m: seq<int>, bs: seq<Block>, hi: int, i: nat)
    requires Tiled(bs, HEAP_HEADER, hi) && hi <= |m| && AllTagged(m, bs) && i < |bs| && bs[i].used
    ensures 0 <= bs[i].addr + 1 < |m|
    ensures var freed := bs[i := Block(bs[i].addr, bs[i].size, false)];
      && Tiled(freed, HEAP_HEADER, hi) && AllTagged(m[bs[i].addr + 1 := 0], freed)
      && freed[i + 1..] == bs[i + 1..]
  {
    SpreadOf(bs, HEAP_HEADER, hi);
    assert Tagged(m, bs[i]);
    FreedTiled(bs, hi, i);
    var b := Block(bs[i].addr, bs[i].size, false);
    var freed := bs[i := b];
    forall k | 0 <= k < |bs|
      ensures Tagged(m[b.addr + 1 := 0], freed[k])
    {
      assert Tagged(m, bs[k]);
      if k < i { assert bs[k].End() <= bs[i].addr; }
      if k > i { assert bs[i].End() <= bs[k].addr; }
    }
  }

  /** The blocks before block i are unaffected by later words. */
  lemma TagsBefore(m: seq<int>, m': seq<int>, bs: seq<Block>, hi: int, i: nat)
    requires Tiled(bs, HEAP_HEADER, hi) && hi <= |m| == |m'| && AllTagged(m, bs) && i < |bs|
    requires forall w :: 0 <= w < |m| && w < bs[i].addr ==> m'[w] == m[w]
    ensures AllTagged(m', bs[..i]) && Tiled(bs[..i], HEAP_HEADER, bs[i].addr)
  {
    TiledSplit(bs, HEAP_HEADER, hi, i);
    SpreadOf(bs, HEAP_HEADER, hi);
    forall k | 0 <= k < i
      ensures Tagged(m', bs[k])
    {
      assert Tagged(m, bs[k]);
    }
  }

  lemma MergeRanges(m: seq<int>, first: int, bs: seq<Block>, i: nat, hi: int)
    requires Inv(m, first, bs, hi) && i < |bs| && bs[i].used
    ensures HEAP_HEADER <= bs[i].addr < hi - 3
    ensures i > 0 ==> HEAP_HEADER <= bs[i - 1].addr < bs[i].addr
    ensures i + 1 < |bs| ==> bs[i].addr < bs[i + 1].addr < hi - 3
  {
    SpreadOf(bs, HEAP_HEADER, hi);
  }

  /** A header one word low is never the previous free header; the first block has none. */
  lemma FirstBlock(bs: seq<Block>, hi: int, i: nat)
    requires Tiled(bs, HEAP_HEADER, hi) && i < |bs|
    ensures bs[i].addr == HEAP_HEADER <==> i == 0
    ensures i > 0 ==> bs[i - 1].addr - 1 != PrevFreeHeader(bs, i)
  {
    SpreadOf(bs, HEAP_HEADER, hi);
    if i > 0 { assert bs[0].End() <= bs[i].addr; }
  }

  /** A heap of 32 words: three allocated blocks and a free one. */
  function ExampleBlocks(): seq<Block> {
    [Block(6, 3, true), Block(12, 3, true), Block(18, 3, true), Block(24, 5, false)]
  }

  function ExampleMemory(): seq<int> {
    [0, 0, 0, 0, 0, 0,   24, 1, 0, 0, 0, 24,   24, 1, 0, 0, 0, 24,
     24, 1, 0, 0, 0, 24,   40, 0, 0, 0, 0, 0, 0, 40]
  }

  /** In a concrete heap, freeing the second of three allocated blocks does not release it. */
  lemma SecondBlockNotFreed()
    ensures var m, bs := ExampleMemory(), ExampleBlocks();
      var bytes := Swallowed(m, 12, 0);
      && Inv(m, 24, bs, 32) && CanMerge(m, 5, 0, bytes)
      && !Inv(Merge(m, 5, 0, bytes), 24, Release(bs, 1), 32)
  {
    ExampleSound();
    MisplacedMerge(ExampleMemory(), 24, ExampleBlocks(), 1, 32);
  }

  lemma ExampleTagged()
    ensures AllTagged(ExampleMemory(), ExampleBlocks())
  {
    var m, bs := ExampleMemory(), ExampleBlocks();
    assert Tagged(m, bs[0]) && Tagged(m, bs[1]);
    assert Tagged(m, bs[2]) && Tagged(m, bs[3]);
  }

  lemma ExampleSound()
    ensures Inv(ExampleMemory(), 24, ExampleBlocks(), 32)
  {
    var m, bs := ExampleMemory(), ExampleBlocks();
    ExampleTagged();
    assert Tiled(bs, HEAP_HEADER, 32) by {
      assert bs[1..] == [Block(12, 3, true), Block(18, 3, true), Block(24, 5, false)];
      assert bs[1..][1..] == [Block(18, 3, true), Block(24, 5, false)];
      assert bs[1..][1..][1..] == [Block(24, 5, false)];
    }
    assert FirstFree(bs) == 24 by {
      FirstFreeSkip(bs, 0, 3);
      assert bs[0..] == bs;
    }
    assert LinkedAt(m, bs, 3) by {
      LastFreeSkip(bs, 0, 3);
      assert bs[4..] == [];
    }
  }
}
