/**
  The block structure of a boundary-tag heap, as values: how a list of blocks tiles the heap,
  what the tags and free-list links in memory must say about it, and what carving, releasing
  and growing do to it.

  Memory is counted in 8-byte words.  Offsets are relative to the start of the heap, and 0
  (the heap's own header) stands for NULL.
*/
module HeapBlocks {
  const HEAP_HEADER := 6   // sizeof(heap_t)
  const WORD := 8          // bytes in a word
  const HEADER := 2        // sizeof(block_header_t)
  const TAGS := 3          // header and footer together
  const PAGE_WORDS := 512
  const ALLOC_PAGES := 16

  /** A block: where its header is, its payload in words, and whether it is allocated. */
  datatype Block = Block(addr: int, size: int, used: bool) {
    function End(): int { addr + size + TAGS }
    predicate Payload(w: int) { addr + HEADER <= w < addr + HEADER + size }
  }

  /** Blocks follow each other exactly from lo to hi; payloads are 8 (mod 16) bytes. */
  ghost predicate Tiled(bs: seq<Block>, lo: int, hi: int) {
    if bs == [] then lo == hi
    else
      && bs[0].addr == lo && lo % 2 == 0 && bs[0].size >= 1 && bs[0].size % 2 == 1
      && Tiled(bs[1..], bs[0].End(), hi)
  }

  /** What tiling means for blocks in general position: inside lo..hi, and one after the other. */
  ghost predicate Spread(bs: seq<Block>, lo: int, hi: int) {
    && (forall i :: 0 <= i < |bs| ==> lo <= bs[i].addr && bs[i].size >= 1 && bs[i].End() <= hi)
    && (forall i :: 0 <= i < |bs| - 1 ==> bs[i].End() == bs[i + 1].addr)
    && (forall i, j :: 0 <= i < j < |bs| ==> bs[i].End() <= bs[j].addr)
    && (bs == [] ==> lo == hi)
    && (bs != [] ==> bs[0].addr == lo && bs[|bs| - 1].End() == hi)
  }

  lemma {:induction false} SpreadOf(bs: seq<Block>, lo: int, hi: int)
    requires Tiled(bs, lo, hi)
    ensures Spread(bs, lo, hi) && lo <= hi
  {
    if bs != [] {
      SpreadOf(bs[1..], bs[0].End(), hi);
      assert forall i :: 1 <= i < |bs| ==> bs[i] == bs[1..][i - 1];
    }
  }

  /** No two free blocks are neighbours. */
  ghost predicate Coalesced(bs: seq<Block>) {
    forall i :: 0 <= i < |bs| - 1 ==> bs[i].used || bs[i + 1].used
  }

  /** Address of the first free block, or 0. */
  function FirstFree(bs: seq<Block>): int {
    if bs == [] then 0 else if !bs[0].used then bs[0].addr else FirstFree(bs[1..])
  }

  /** Address of the last free block, or 0. */
  function LastFree(bs: seq<Block>): int {
    if bs == [] then 0
    else if !bs[|bs| - 1].used then bs[|bs| - 1].addr else LastFree(bs[..|bs| - 1])
  }

  /** Sizes are stored in bytes; a byte count is even. */
  lemma SizeWord(n: nat)
    ensures (WORD * n) / WORD == n && (WORD * n) % 2 == 0
  {
    Halves(4 * n);
  }

  lemma Halves(n: nat)
    ensures (2 * n) % 2 == 0
  {
  }

  /** The header, flag and footer words of a block say what the block is. */
  ghost predicate Tagged(m: seq<int>, b: Block) {
    && 0 <= b.addr && 1 <= b.size && b.End() <= |m|
    && m[b.addr] == WORD * b.size
    && m[b.addr + 1] % 2 == (if b.used then 1 else 0)   // FLAG_ALLOCATED is bit 0
    && m[b.addr + HEADER + b.size] == WORD * b.size
  }

  ghost predicate AllTagged(m: seq<int>, bs: seq<Block>) {
    forall i {:trigger Tagged(m, bs[i])} :: 0 <= i < |bs| ==> Tagged(m, bs[i])
  }

  /** The links of free block i lead to the neighbouring free blocks, in address order. */
  ghost predicate LinkedAt(m: seq<int>, bs: seq<Block>, i: int)
    requires 0 <= i < |bs| && Tagged(m, bs[i])
  {
    m[bs[i].addr + 2] == FirstFree(bs[i + 1..]) && m[bs[i].addr + 3] == LastFree(bs[..i])
  }

  /** The doubly linked free list holds exactly the free blocks, in address order. */
  ghost predicate Linked(m: seq<int>, bs: seq<Block>)
    requires AllTagged(m, bs)
  {
    forall i {:trigger LinkedAt(m, bs, i)} :: 0 <= i < |bs| && !bs[i].used ==> LinkedAt(m, bs, i)
  }

  /** The heap invariant, for a heap whose first block starts at HEAP_HEADER and ends at hi. */
  ghost predicate Inv(m: seq<int>, first: int, bs: seq<Block>, hi: int) {
    && bs != [] && Tiled(bs, HEAP_HEADER, hi) && HEAP_HEADER <= hi <= |m|
    && Coalesced(bs)
    && AllTagged(m, bs)
    && Linked(m, bs)
    && first == FirstFree(bs)
  }

  // ----- What the operations do to the blocks -----

  /** Index of the first free block of at least n words, or |bs|. */
  function FirstFit(bs: seq<Block>, n: int): (i: nat)
    ensures i <= |bs|
    ensures forall j :: 0 <= j < i ==> bs[j].used || bs[j].size < n
    ensures i < |bs| ==> !bs[i].used && bs[i].size >= n
  {
    if bs == [] || (!bs[0].used && bs[0].size >= n) then 0 else 1 + FirstFit(bs[1..], n)
  }

  lemma {:induction false} FirstFitIs(bs: seq<Block>, n: int, i: nat)
    requires i <= |bs| && forall j :: 0 <= j < i ==> bs[j].used || bs[j].size < n
    requires i < |bs| ==> !bs[i].used && bs[i].size >= n
    ensures FirstFit(bs, n) == i
  {
  }

  /** A free block becomes allocated; if at least 32 bytes remain, they become a free block. */
  function Carved(b: Block, n: int): (bs: seq<Block>) {
    if b.size - n < 1 + TAGS then [Block(b.addr, b.size, true)]
    else [Block(b.addr, n, true), Block(b.addr + n + TAGS, b.size - n - TAGS, false)]
  }

  function Carve(bs: seq<Block>, i: nat, n: int): seq<Block>
    requires i < |bs|
  {
    bs[..i] + Carved(bs[i], n) + bs[i + 1..]
  }

  /** Blocks k..l as one free block. */
  function Merged(bs: seq<Block>, k: nat, l: nat): Block
    requires k < l <= |bs|
  {
    Block(bs[k].addr, bs[l - 1].End() - TAGS - bs[k].addr, false)
  }

  /** The blocks that become one when block i is released: itself and its free neighbours. */
  function ReleaseFrom(bs: seq<Block>, i: nat): (k: nat)
    requires i < |bs|
    ensures k <= i
  {
    if i > 0 && !bs[i - 1].used then i - 1 else i
  }

  function ReleaseTo(bs: seq<Block>, i: nat): (l: nat)
    requires i < |bs|
    ensures i < l <= |bs|
  {
    if i + 1 < |bs| && !bs[i + 1].used then i + 2 else i + 1
  }

  /** Block i released, as the merging half of heap_free does it, given its true free neighbours. */
  function Release(bs: seq<Block>, i: nat): seq<Block>
    requires i < |bs|
  {
    var k, l := ReleaseFrom(bs, i), ReleaseTo(bs, i);
    bs[..k] + [Merged(bs, k, l)] + bs[l..]
  }

  /** New pages extend a free last block, or become a free block of their own. */
  function Grown(last: Block, pages: nat): seq<Block> {
    if last.used then [last, Block(last.End(), pages * PAGE_WORDS - TAGS, false)]
    else [Block(last.addr, last.size + pages * PAGE_WORDS, false)]
  }

  function Grow(bs: seq<Block>, pages: nat): seq<Block>
    requires bs != []
  {
    bs[..|bs| - 1] + Grown(bs[|bs| - 1], pages)
  }

  /** Whether the window has room for enough new pages to hold n words and their tags. */
  predicate CanGrow(pages: nat, maxpages: nat, n: int) {
    (maxpages - pages) * PAGE_WORDS >= n + TAGS
  }

  /** By how many pages a heap may grow for n words (and their three tags): at least 16, unless the window ends
      there, and more than 16 only if fewer would not do. */
  predicate Tight(added: int, pages: nat, maxpages: nat, n: int) {
    (added >= 16 || pages + added == maxpages) && (added > 16 ==> 512 * (added - 1) < n + 3)
  }

  /** At least ALLOC_PAGES new pages, and enough for n words, but never more than the window has. */
  function GrowthPages(pages: nat, maxpages: nat, n: nat): (p: nat)
    requires pages <= maxpages
    ensures p <= maxpages - pages
    ensures CanGrow(pages, maxpages, n) <==> p * PAGE_WORDS >= n + TAGS
    ensures Tight(p, pages, maxpages, n)
  {
    var wanted := (n + TAGS + PAGE_WORDS - 1) / PAGE_WORDS;
    var p := if wanted > ALLOC_PAGES then wanted else ALLOC_PAGES;
    if pages + p > maxpages then maxpages - pages else p
  }

  /** Whether a request for n words can be served at all. */
  predicate Fits(bs: seq<Block>, pages: nat, maxpages: nat, n: nat) {
    FirstFit(bs, n) < |bs| || CanGrow(pages, maxpages, n)
  }

  /** The blocks a request for n words is served from: grown only if no free block is big enough. */
  function Site(bs: seq<Block>, pages: nat, maxpages: nat, n: nat): seq<Block>
    requires bs != [] && pages <= maxpages
  {
    if FirstFit(bs, n) < |bs| then bs else Grow(bs, GrowthPages(pages, maxpages, n))
  }

  /** Which of them: the first that fits, or the grown last one. */
  function SiteIndex(bs: seq<Block>, pages: nat, maxpages: nat, n: nat): int
    requires bs != [] && pages <= maxpages
  {
    if FirstFit(bs, n) < |bs| then FirstFit(bs, n) else |Site(bs, pages, maxpages, n)| - 1
  }

  lemma GrowBigEnough(bs: seq<Block>, p: nat, n: nat)
    requires bs != [] && bs[|bs| - 1].size >= 0 && p * PAGE_WORDS >= n + TAGS
    ensures Grow(bs, p)[|Grow(bs, p)| - 1].size >= n
  {
  }

  /** Where block k starts, or the end of the heap. */
  function Start(bs: seq<Block>, k: nat, hi: int): int
    requires k <= |bs|
  {
    if k < |bs| then bs[k].addr else hi
  }

  lemma {:induction false} TiledSplit(bs: seq<Block>, lo: int, hi: int, k: nat)
    requires Tiled(bs, lo, hi) && k <= |bs|
    ensures Tiled(bs[..k], lo, Start(bs, k, hi)) && Tiled(bs[k..], Start(bs, k, hi), hi)
  {
    if k > 0 {
      TiledSplit(bs[1..], bs[0].End(), hi, k - 1);
      assert bs[..k][1..] == bs[1..][..k - 1];
    }
  }

  lemma {:induction false} TiledConcat(a: seq<Block>, b: seq<Block>, lo: int, mid: int, hi: int)
    requires Tiled(a, lo, mid) && Tiled(b, mid, hi)
    ensures Tiled(a + b, lo, hi)
  {
    if a == [] {
      assert a + b == b;
    } else {
      TiledConcat(a[1..], b, a[0].End(), mid, hi);
      assert (a + b)[1..] == a[1..] + b;
    }
  }

  /** Replacing the blocks i..j by blocks over the same words keeps the tiling. */
  lemma Retile(bs: seq<Block>, lo: int, hi: int, i: nat, j: nat, M: seq<Block>, hi': int)
    requires Tiled(bs, lo, hi) && i <= j <= |bs|
    requires Tiled(M, Start(bs, i, hi), Start(bs, j, hi) + hi' - hi)
    requires hi' == hi || j == |bs|
    ensures Tiled(bs[..i] + M + bs[j..], lo, hi')
  {
    TiledSplit(bs, lo, hi, i);
    TiledSplit(bs, lo, hi, j);
    TiledConcat(bs[..i], M, lo, Start(bs, i, hi), Start(bs, j, hi) + hi' - hi);
    assert j == |bs| ==> bs[j..] == [];
    TiledConcat(bs[..i] + M, bs[j..], lo, Start(bs, j, hi) + hi' - hi, hi');
  }

  lemma Recoalesce(bs: seq<Block>, i: nat, j: nat, M: seq<Block>)
    requires Coalesced(bs) && i <= j <= |bs| && M != [] && Coalesced(M)
    requires i > 0 ==> bs[i - 1].used || M[0].used
    requires j < |bs| ==> bs[j].used || M[|M| - 1].used
    ensures Coalesced(bs[..i] + M + bs[j..])
  {
  }

  /** One block of a tiling: where it starts, where it ends, and its alignment. */
  lemma TiledAt(bs: seq<Block>, lo: int, hi: int, i: nat)
    requires Tiled(bs, lo, hi) && i < |bs|
    ensures bs[i].size >= 1 && bs[i].size % 2 == 1 && bs[i].addr % 2 == 0
    ensures bs[i].End() == Start(bs, i + 1, hi)
  {
    TiledSplit(bs, lo, hi, i);
    TiledSplit(bs, lo, hi, i + 1);
    TiledSplit(bs[i..], bs[i].addr, hi, 1);
    assert bs[i..][0] == bs[i];
  }

  lemma CarveShape(bs: seq<Block>, i: nat, n: int, lo: int, hi: int)
    requires Tiled(bs, lo, hi) && Coalesced(bs)
    requires i < |bs| && !bs[i].used && 1 <= n <= bs[i].size && n % 2 == 1
    ensures Tiled(Carve(bs, i, n), lo, hi) && Coalesced(Carve(bs, i, n))
  {
    var M := Carved(bs[i], n);
    TiledAt(bs, lo, hi, i);
    assert Tiled(M, bs[i].addr, bs[i].End()) by {
      if |M| == 2 { assert M[1..][1..] == []; }
    }
    Retile(bs, lo, hi, i, i + 1, M, hi);
    Recoalesce(bs, i, i + 1, M);
  }

  /** The merge, given the true free neighbours, keeps the blocks in shape. */
  lemma ReleaseShape(bs: seq<Block>, i: nat, lo: int, hi: int)
    requires Tiled(bs, lo, hi) && Coalesced(bs)
    requires i < |bs| && bs[i].used
    ensures Tiled(Release(bs, i), lo, hi) && Coalesced(Release(bs, i))
  {
    var k, l := ReleaseFrom(bs, i), ReleaseTo(bs, i);
    TiledAt(bs, lo, hi, k);
    TiledAt(bs, lo, hi, i);
    TiledAt(bs, lo, hi, l - 1);
    Retile(bs, lo, hi, k, l, [Merged(bs, k, l)], hi);
    Recoalesce(bs, k, l, [Merged(bs, k, l)]);
  }

  lemma GrownTiled(last: Block, pages: nat)
    requires last.addr % 2 == 0 && last.size >= 1 && last.size % 2 == 1 && pages > 0
    ensures Tiled(Grown(last, pages), last.addr, last.End() + pages * PAGE_WORDS)
  {
  }

  lemma GrowShape(bs: seq<Block>, pages: nat, lo: int, hi: int)
    requires Tiled(bs, lo, hi) && Coalesced(bs) && bs != [] && pages > 0
    ensures Tiled(Grow(bs, pages), lo, hi + pages * PAGE_WORDS) && Coalesced(Grow(bs, pages))
  {
    var k := |bs| - 1;
    var M := Grown(bs[k], pages);
    TiledAt(bs, lo, hi, k);
    GrownTiled(bs[k], pages);
    Retile(bs, lo, hi, k, k + 1, M, hi + pages * PAGE_WORDS);
    Recoalesce(bs, k, k + 1, M);
    assert bs[..k] + M + bs[k + 1..] == bs[..k] + M;
  }
}
