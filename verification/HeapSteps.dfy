/** What the word stores of each heap operation achieve. */
module HeapSteps {
  import opened HeapBlocks
  import opened HeapLinks

  /**
    An allocation may proceed at free block i: everything is in order except that the free
    block before it may not know of it.
  */
  ghost predicate Carvable(m: seq<int>, first: int, bs: seq<Block>, i: nat, hi: int) {
    && i < |bs| && !bs[i].used
    && Tiled(bs, HEAP_HEADER, hi) && hi <= |m| && Coalesced(bs)
    && LeftOk(m, bs[..i]) && RightOk(m, bs[i + 1..]) && Roomy(bs)
    && Tagged(m, bs[i]) && LinkedAt(m, bs, i)
    && first == FirstFree(bs)
  }

  lemma InvOfSingle(m: seq<int>, b: Block, hi: int)
    requires b.addr == HEAP_HEADER && b.End() == hi <= |m| && !b.used && b.size % 2 == 1 && Tagged(m, b)
    requires m[b.addr + 2] == 0 && m[b.addr + 3] == 0
    ensures Inv(m, b.addr, [b], hi)
  {
  }

  lemma RoomyOfInv(m: seq<int>, first: int, bs: seq<Block>, hi: int)
    requires Inv(m, first, bs, hi)
    ensures Roomy(bs)
  {
    forall k | 0 <= k < |bs| && !bs[k].used
      ensures bs[k].size >= 3
    {
      FreeBlocksRoomy(m, first, bs, hi, k);
    }
  }

  lemma CarvableOfInv(m: seq<int>, first: int, bs: seq<Block>, i: nat, hi: int)
    requires Inv(m, first, bs, hi) && i < |bs| && !bs[i].used
    ensures Carvable(m, first, bs, i, hi)
  {
    LeftOfInv(m, first, bs, hi, i);
    RightOfInv(m, first, bs, hi, i + 1);
    RoomyOfInv(m, first, bs, hi);
  }

  /** A request that a free block can serve is served from the blocks as they are. */
  lemma FoundSite(m: seq<int>, first: int, bs: seq<Block>, pages: nat, maxpages: nat, n: nat, hi: int)
    requires Inv(m, first, bs, hi) && FirstFit(bs, n) < |bs| && pages <= maxpages
    ensures Fits(bs, pages, maxpages, n)
    ensures Site(bs, pages, maxpages, n) == bs && SiteIndex(bs, pages, maxpages, n) == FirstFit(bs, n)
    ensures Carvable(m, first, bs, FirstFit(bs, n), hi) && Untouched(m, m, bs)
  {
    CarvableOfInv(m, first, bs, FirstFit(bs, n), hi);
  }

  lemma GrownSite(bs: seq<Block>, pages: nat, maxpages: nat, n: nat)
    requires bs != [] && FirstFit(bs, n) == |bs| && pages <= maxpages
    ensures Fits(bs, pages, maxpages, n) == CanGrow(pages, maxpages, n)
    ensures var g := Grow(bs, GrowthPages(pages, maxpages, n));
      Site(bs, pages, maxpages, n) == g && SiteIndex(bs, pages, maxpages, n) == |g| - 1
  {
  }

  lemma FreeAddresses(bs: seq<Block>, lo: int, hi: int)
    requires Spread(bs, lo, hi) && lo >= HEAP_HEADER
    ensures FirstFree(bs) == 0 || lo <= FirstFree(bs) < hi - 3
    ensures LastFree(bs) == 0 || lo <= LastFree(bs) < hi - 3
  {
    var f := FirstFreeIndex(bs);
    var l := LastFreeIndex(bs);
  }

  /** The parts of a tiling around blocks i..j. */
  lemma Parts(bs: seq<Block>, hi: int, i: nat, j: nat)
    requires Tiled(bs, HEAP_HEADER, hi) && i <= j <= |bs|
    ensures Spread(bs[..i], HEAP_HEADER, Start(bs, i, hi)) && HEAP_HEADER <= Start(bs, i, hi)
    ensures Spread(bs[j..], Start(bs, j, hi), hi) && Start(bs, i, hi) <= Start(bs, j, hi) <= hi
    ensures i < j ==> Start(bs, i, hi) < Start(bs, j, hi)
    ensures Placed(bs[..i]) && Placed(bs[j..])
    ensures FirstFree(bs[j..]) == 0 || Start(bs, j, hi) <= FirstFree(bs[j..]) < hi - 3
    ensures LastFree(bs[..i]) == 0 || HEAP_HEADER <= LastFree(bs[..i]) < Start(bs, i, hi) - 3
  {
    TiledSplit(bs, HEAP_HEADER, hi, i);
    TiledSplit(bs, HEAP_HEADER, hi, j);
    SpreadOf(bs, HEAP_HEADER, hi);
    SpreadOf(bs[..i], HEAP_HEADER, Start(bs, i, hi));
    SpreadOf(bs[j..], Start(bs, j, hi), hi);
    FreeAddresses(bs[..i], HEAP_HEADER, Start(bs, i, hi));
    FreeAddresses(bs[j..], Start(bs, j, hi), hi);
  }

  /** M holds at most one free block, and that one last; f is its address, or 0. */
  ghost predicate OneFree(M: seq<Block>, f: int) {
    && 1 <= |M| <= 2
    && (forall k :: 0 <= k < |M| - 1 ==> M[k].used)
    && f == (if M[|M| - 1].used then 0 else M[|M| - 1].addr)
  }

  /** The stores that link new blocks, with a free one at f or none, between free blocks prev and next. */
  ghost predicate Relinked(m: seq<int>, first: int, first': int, prev: int, next: int, f: int) {
    && (prev != 0 ==> 0 <= prev < |m| - 2 && m[prev + 2] == if f != 0 then f else next)
    && (next != 0 ==> 0 <= next < |m| - 3 && m[next + 3] == if f != 0 then f else prev)
    && (f != 0 ==> 0 <= f < |m| - 3 && m[f + 2] == next && m[f + 3] == prev)
    && first' == if prev != 0 then first else if f != 0 then f else next
  }

  lemma FreeOfOne(L: seq<Block>, M: seq<Block>, R: seq<Block>, f: int)
    requires Placed(L) && Placed(M) && Placed(R) && OneFree(M, f)
    ensures FirstFree(M + R) == if f != 0 then f else FirstFree(R)
    ensures LastFree(L + M) == if f != 0 then f else LastFree(L)
    ensures f != 0 ==> LastFree(L + M[..|M| - 1]) == LastFree(L) && M[|M|..] + R == R
  {
    FirstFreeConcat(M, R);
    LastFreeConcat(L, M);
    OneFreeEnds(M, f);
    LastFreeConcat(L, M[..|M| - 1]);
  }

  lemma OneFreeEnds(M: seq<Block>, f: int)
    requires Placed(M) && OneFree(M, f)
    ensures FirstFree(M) == f && LastFree(M) == f && LastFree(M[..|M| - 1]) == 0
  {
  }

  /** The one free block among the new ones is last, and linked to what is around them. */
  lemma JoinedLast(m: seq<int>, first: int, first': int, L: seq<Block>, M: seq<Block>, R: seq<Block>, f: int, k: nat)
    requires Placed(L) && Placed(M) && Placed(R) && OneFree(M, f) && AllTagged(m, M)
    requires Relinked(m, first, first', LastFree(L), FirstFree(R), f)
    requires k < |M| && !M[k].used
    ensures JoinedAt(m, L, M, R, k)
  {
    OneFreeEnds(M, f);
    LastFreeConcat(L, M[..k]);
    assert M[k + 1..] + R == R;
  }

  lemma JoinedOfOne(m: seq<int>, first: int, first': int, L: seq<Block>, M: seq<Block>, R: seq<Block>, f: int)
    requires Placed(L) && Placed(M) && Placed(R) && OneFree(M, f) && AllTagged(m, M)
    requires Relinked(m, first, first', LastFree(L), FirstFree(R), f)
    requires LastFree(L) != 0 ==> first == FirstFree(L)
    ensures Joined(m, first', L, M, R)
  {
    forall k | 0 <= k < |M| && !M[k].used
      ensures JoinedAt(m, L, M, R, k)
    {
      JoinedLast(m, first, first', L, M, R, f, k);
    }
    FreeOfOne(L, M, R, f);
  }

  /**
    Replacing blocks i..j by M is right if the new blocks are tagged, the links around them are
    set, and no other word changed.
  */
  lemma Replace(m: seq<int>, m': seq<int>, first: int, first': int, bs: seq<Block>, i: nat, j: nat,
                M: seq<Block>, f: int, bs': seq<Block>, hi: int)
    requires i < j <= |bs| && Tiled(bs, HEAP_HEADER, hi) && hi <= |m| == |m'|
    requires LeftOk(m, bs[..i]) && RightOk(m, bs[j..]) && Roomy(bs) && first == FirstFree(bs)
    requires OneFree(M, f) && AllTagged(m', M) && Relinked(m', first, first', LastFree(bs[..i]), FirstFree(bs[j..]), f)
    requires
      var prev, next := LastFree(bs[..i]), FirstFree(bs[j..]);
      forall w :: HEAP_HEADER <= w < hi && !(bs[i].addr <= w < Start(bs, j, hi)) && w != prev + 2 && w != next + 3
        ==> m'[w] == m[w]
    requires bs' == bs[..i] + M + bs[j..] && Tiled(bs', HEAP_HEADER, hi) && Coalesced(bs')
    ensures Inv(m', first', bs', hi)
    ensures Untouched(m, m', bs[..i] + bs[j..])
  {
    var L, R, lo, end := bs[..i], bs[j..], bs[i].addr, Start(bs, j, hi);
    Parts(bs, hi, i, j);
    ReplaceJoined(m', first, first', bs, i, j, M, f, hi);
    assert ChangedWithin(m, m', L, R, lo, end, hi);
    assert Inv(m', first', bs', hi) by {
      assert Roomy(R);
      Rebuild(m, m', first', L, M, R, lo, end, hi);
    }
    assert Untouched(m, m', L + R) by { UntouchedParts(m, m', L, R, lo, end, hi); }
  }

  lemma ReplaceJoined(m: seq<int>, first: int, first': int, bs: seq<Block>, i: nat, j: nat,
                      M: seq<Block>, f: int, hi: int)
    requires i < j <= |bs| && Placed(bs[..i]) && Placed(bs[j..]) && first == FirstFree(bs)
    requires Tiled(bs[..i] + M + bs[j..], HEAP_HEADER, hi)
    requires OneFree(M, f) && AllTagged(m, M)
    requires Relinked(m, first, first', LastFree(bs[..i]), FirstFree(bs[j..]), f)
    ensures Joined(m, first', bs[..i], M, bs[j..])
  {
    PlacedParts(bs[..i], M, bs[j..], hi);
    HeadOfLeft(bs, i);
    JoinedOfOne(m, first, first', bs[..i], M, bs[j..], f);
  }

  lemma HeadOfLeft(bs: seq<Block>, i: nat)
    requires i <= |bs| && Placed(bs[..i])
    ensures LastFree(bs[..i]) != 0 ==> FirstFree(bs) == FirstFree(bs[..i])
  {
    assert bs == bs[..i] + bs[i..];
    FirstFreeConcat(bs[..i], bs[i..]);
    NoneFree(bs[..i]);
  }

  /** A grown heap is its old blocks, but for the last one if that was free, and a free block. */
  lemma GrownParts(bs: seq<Block>, p: nat)
    requires bs != []
    ensures var G := Grow(bs, p); var k := |G| - 1;
      && k <= |bs| && G == bs[..k] + [G[k]] && !G[k].used
      && bs[..k] == G[..k] && G[k + 1..] == []
      && (k < |bs| ==> !bs[k].used && bs[k].addr == G[k].addr && bs[k].size <= G[k].size)
      && (k == |bs| ==> G[k].addr == bs[k - 1].End())
  {
  }

  lemma GrownLeft(m: seq<int>, m': seq<int>, first: int, bs: seq<Block>, k: nat, hi: int)
    requires Inv(m, first, bs, hi) && |m| == |m'| && k <= |bs|
    requires forall w :: HEAP_HEADER <= w < |m| && w < Start(bs, k, hi) ==> m'[w] == m[w]
    ensures LeftOk(m', bs[..k]) && Untouched(m, m', bs[..k])
  {
    Parts(bs, hi, k, k);
    LeftOfInv(m, first, bs, hi, k);
    LeftFrame(m, m', bs[..k], HEAP_HEADER, Start(bs, k, hi));
  }

  lemma GrownHead(first: int, first': int, bs: seq<Block>, k: nat, b: Block)
    requires Placed(bs) && k <= |bs| && !b.used && b.addr > 0 && first == FirstFree(bs)
    requires first' == if LastFree(bs[..k]) == 0 then b.addr else first
    ensures first' == FirstFree(bs[..k] + [b])
  {
    OneFreeEnds([b], b.addr);
    FirstFreeConcat(bs[..k], [b]);
    HeadOfLeft(bs, k);
    NoneFree(bs[..k]);
  }

  lemma SameHead(bs: seq<Block>, k: nat, b: Block)
    requires Placed(bs) && k == |bs| - 1 && !bs[k].used && !b.used && b.addr == bs[k].addr
    ensures FirstFree(bs[..k] + [b]) == FirstFree(bs)
  {
    assert bs == bs[..k] + [bs[k]];
    FirstFreeConcat(bs[..k], [bs[k]]);
    FirstFreeConcat(bs[..k], [b]);
  }

  /**
    The stores that grow a heap: they put a tagged free block at the end.  If it is a block of
    its own, the free block before it still says that nothing follows.
  */
  ghost predicate GrownStores(m: seq<int>, m': seq<int>, first: int, first': int, bs: seq<Block>, p: nat)
    requires bs != []
  {
    var G := Grow(bs, p);
    var k := |G| - 1;
    && |m| == |m'| && G[k].End() <= |m|
    && Tagged(m', G[k]) && m'[G[k].addr + 2] == 0 && m'[G[k].addr + 3] == LastFree(bs[..k])
    && (forall w :: 0 <= w < G[k].addr ==> m'[w] == m[w])
    && first' == if k == |bs| && LastFree(bs) == 0 then G[k].addr else first
  }

  /** After growth the last block can be carved, though the list before it is not yet complete. */
  ghost predicate GrownReady(m: seq<int>, m': seq<int>, first': int, bs: seq<Block>, p: nat, hi: int)
    requires bs != []
  {
    && Carvable(m', first', Grow(bs, p), |Grow(bs, p)| - 1, hi + p * PAGE_WORDS)
    && Untouched(m, m', bs) && Grow(bs, p)[|Grow(bs, p)| - 1].addr >= HEAP_HEADER
    && (bs[|bs| - 1].used && LastFree(bs) != 0 ==> 0 < LastFree(bs) < |m'| - 2 && m'[LastFree(bs) + 2] == 0)
  }

  lemma GrownCarvable(m: seq<int>, m': seq<int>, first: int, first': int, bs: seq<Block>, p: nat, hi: int)
    requires Inv(m, first, bs, hi) && p > 0 && hi + p * PAGE_WORDS <= |m|
    requires GrownStores(m, m', first, first', bs, p)
    ensures GrownReady(m, m', first', bs, p, hi)
  {
    var G := Grow(bs, p);
    var k := |G| - 1;
    GrownParts(bs, p);
    assert Tiled(G, HEAP_HEADER, hi + p * PAGE_WORDS) && Coalesced(G) by { GrowShape(bs, p, HEAP_HEADER, hi); }
    assert first' == FirstFree(G) by { GrownFirst(m, m', first, first', bs, p, hi); }
    assert Roomy(G) by {
      RoomyOfInv(m, first, bs, hi);
      RoomyGrown(bs, p);
    }
    assert HEAP_HEADER <= Start(bs, k, hi) == G[k].addr by { SpreadOf(bs, HEAP_HEADER, hi); }
    GrownLeft(m, m', first, bs, k, hi);
    GrownOthers(m, m', first, bs, k, hi);
  }

  lemma GrownFirst(m: seq<int>, m': seq<int>, first: int, first': int, bs: seq<Block>, p: nat, hi: int)
    requires Inv(m, first, bs, hi) && p > 0 && GrownStores(m, m', first, first', bs, p)
    ensures first' == FirstFree(Grow(bs, p))
  {
    var G := Grow(bs, p);
    var k := |G| - 1;
    GrownParts(bs, p);
    SpreadOf(bs, HEAP_HEADER, hi);
    if k == |bs| {
      assert bs[..k] == bs;
      GrownHead(first, first', bs, k, G[k]);
    } else {
      SameHead(bs, k, G[k]);
    }
  }

  lemma GrownOthers(m: seq<int>, m': seq<int>, first: int, bs: seq<Block>, k: nat, hi: int)
    requires Inv(m, first, bs, hi) && hi <= |m| == |m'| && |bs| - 1 <= k <= |bs|
    requires k < |bs| ==> !bs[k].used
    requires forall w :: 0 <= w < |m| && w < Start(bs, k, hi) ==> m'[w] == m[w]
    ensures Untouched(m, m', bs)
    ensures bs[|bs| - 1].used && LastFree(bs) != 0 ==> 0 < LastFree(bs) < |m'| - 2 && m'[LastFree(bs) + 2] == 0
  {
    StaleLink(m, first, bs, hi);
    GrownLeft(m, m', first, bs, k, hi);
    assert bs[..k] + bs[|bs|..] == bs[..k];
    UntouchedAround(m, m', bs, k, |bs|);
    SpreadOf(bs, HEAP_HEADER, hi);
  }

  lemma RoomyGrown(bs: seq<Block>, p: nat)
    requires Roomy(bs) && bs != [] && p > 0
    ensures Roomy(Grow(bs, p))
  {
  }

  lemma UntouchedAround(m: seq<int>, m': seq<int>, bs: seq<Block>, i: nat, j: nat)
    requires i <= j <= |bs| && Untouched(m, m', bs[..i] + bs[j..])
    requires forall k :: i <= k < j ==> !bs[k].used
    ensures Untouched(m, m', bs)
  {
    var r := bs[..i] + bs[j..];
    forall k, w | 0 <= k < |bs| && bs[k].used && 0 <= w < |m| && bs[k].Payload(w)
      ensures m'[w] == m[w]
    {
      if k < i { assert r[k] == bs[k]; } else { assert r[k - (j - i)] == bs[k]; }
    }
  }

  /** The last free block's next link ends the list. */
  lemma StaleLink(m: seq<int>, first: int, bs: seq<Block>, hi: int)
    requires Inv(m, first, bs, hi)
    ensures LastFree(bs) != 0 ==> HEAP_HEADER <= LastFree(bs) < hi - 3 && m[LastFree(bs) + 2] == 0
  {
    SpreadOf(bs, HEAP_HEADER, hi);
    FreeAddresses(bs, HEAP_HEADER, hi);
    var l := LastFreeIndex(bs);
    if l >= 0 {
      assert Tagged(m, bs[l]) && LinkedAt(m, bs, l);
      var n := FirstFreeIndex(bs[l + 1..]);
    }
  }

  /** What is known of the last block before growing. */
  ghost predicate LastLinked(m: seq<int>, bs: seq<Block>, hi: int) {
    && bs != []
    && var b := bs[|bs| - 1];
      && HEAP_HEADER <= b.addr && b.End() == hi && Tagged(m, b)
      && (!b.used ==> b.size >= 3 && m[b.addr + 2] == 0 && m[b.addr + 3] == LastFree(bs[..|bs| - 1]))
  }

  lemma LastLinks(m: seq<int>, first: int, bs: seq<Block>, hi: int)
    requires Inv(m, first, bs, hi)
    ensures LastLinked(m, bs, hi)
  {
    var k := |bs| - 1;
    SpreadOf(bs, HEAP_HEADER, hi);
    assert Tagged(m, bs[k]);
    if !bs[k].used {
      FreeBlocksRoomy(m, first, bs, hi, k);
      assert LinkedAt(m, bs, k) && bs[k + 1..] == [];
    }
  }

  lemma TagsFrame(m: seq<int>, m': seq<int>, bs: seq<Block>, hi: int)
    requires |m| == |m'| && hi <= |m| && LastLinked(m, bs, hi) && Tiled(bs, HEAP_HEADER, hi) && AllTagged(m, bs)
    requires forall w :: 0 <= w < hi ==> m'[w] == m[w]
    ensures LastLinked(m', bs, hi) && AllTagged(m', bs)
  {
    SpreadOf(bs, HEAP_HEADER, hi);
    forall i | 0 <= i < |bs|
      ensures Tagged(m', bs[i])
    {
      assert Tagged(m, bs[i]);
    }
  }

  /** What the words of a free block say. */
  lemma FreeWords(m: seq<int>, first: int, bs: seq<Block>, hi: int, k: nat)
    requires Inv(m, first, bs, hi) && k < |bs| && !bs[k].used
    ensures 0 < bs[k].addr < |m| - 3 && m[bs[k].addr] == WORD * bs[k].size
    ensures m[bs[k].addr + 2] == FirstFree(bs[k + 1..]) && m[bs[k].addr + 3] == LastFree(bs[..k])
  {
    assert bs[k].addr > 0 by { SpreadOf(bs, HEAP_HEADER, hi); }
    assert Tagged(m, bs[k]) && LinkedAt(m, bs, k);
  }

  /** The next free block from block i on. */
  lemma NextFreeIndex(bs: seq<Block>, i: nat) returns (k: nat)
    requires i <= |bs| && Placed(bs[i..])
    ensures i <= k <= |bs| && forall j :: i <= j < k ==> bs[j].used
    ensures k == |bs| <==> FirstFree(bs[i..]) == 0
    ensures k < |bs| ==> !bs[k].used && FirstFree(bs[i..]) == bs[k].addr
  {
    var d := FirstFreeIndex(bs[i..]);
    k := i + d;
    assert forall j :: i <= j < |bs| ==> bs[j] == bs[i..][j - i];
  }

  /** The next free block from block i on, and what its words say. */
  lemma ListStep(m: seq<int>, first: int, bs: seq<Block>, hi: int, i: nat) returns (k: nat)
    requires Inv(m, first, bs, hi) && i <= |bs|
    ensures i <= k <= |bs| && forall j :: i <= j < k ==> bs[j].used
    ensures k == |bs| <==> FirstFree(bs[i..]) == 0
    ensures k < |bs| ==>
      && !bs[k].used && FirstFree(bs[i..]) == bs[k].addr && 0 < bs[k].addr < |m| - 3
      && m[bs[k].addr] == WORD * bs[k].size && m[bs[k].addr + 2] == FirstFree(bs[k + 1..])
      && m[bs[k].addr + 3] == LastFree(bs[..k])
  {
    assert Placed(bs[i..]) by { SpreadOf(bs, HEAP_HEADER, hi); }
    k := NextFreeIndex(bs, i);
    if k < |bs| { FreeWords(m, first, bs, hi, k); }
  }

  /** No free block before block i is large enough for n words. */
  ghost predicate NoneFits(bs: seq<Block>, n: int, i: nat) {
    i <= |bs| && forall j :: 0 <= j < i ==> bs[j].used || bs[j].size < n
  }

  /** The next free block, when none before block i is large enough: the first fit, or none of them either. */
  lemma SearchStep(m: seq<int>, first: int, bs: seq<Block>, hi: int, n: int, i: nat) returns (k: nat)
    requires Inv(m, first, bs, hi) && NoneFits(bs, n, i)
    ensures i <= k <= |bs| && (k == |bs| <==> FirstFree(bs[i..]) == 0)
    ensures k < |bs| ==>
      && FirstFree(bs[i..]) == bs[k].addr && 0 < bs[k].addr < |m| - 3
      && m[bs[k].addr] == WORD * bs[k].size && m[bs[k].addr + 2] == FirstFree(bs[k + 1..])
    ensures if k < |bs| && bs[k].size < n then NoneFits(bs, n, k + 1) else FirstFit(bs, n) == k
  {
    k := ListStep(m, first, bs, hi, i);
    if k == |bs| || bs[k].size >= n { FirstFitIs(bs, n, k); }
  }

  /** Where the free block left over by carving b is, or 0. */
  function LeftOver(b: Block, n: int): int {
    if b.size - n < 1 + TAGS then 0 else b.addr + n + TAGS
  }

  /** The stores of an allocation, when they keep the heap sound. */
  lemma CarveDone(m: seq<int>, m': seq<int>, first: int, first': int, bs: seq<Block>, i: nat, n: int, hi: int)
    requires Carvable(m, first, bs, i, hi) && |m'| == |m| && 1 <= n <= bs[i].size && n % 2 == 1
    requires AllTagged(m', Carved(bs[i], n))
    requires Relinked(m', first, first', LastFree(bs[..i]), FirstFree(bs[i + 1..]), LeftOver(bs[i], n))
    requires CarveStores(m, m', bs[i], LastFree(bs[..i]), FirstFree(bs[i + 1..]))
    ensures Inv(m', first', Carve(bs, i, n), hi)
  {
    CarveShape(bs, i, n, HEAP_HEADER, hi);
    TiledAt(bs, HEAP_HEADER, hi, i);
    Replace(m, m', first, first', bs, i, i + 1, Carved(bs[i], n), LeftOver(bs[i], n), Carve(bs, i, n), hi);
  }

  /** Before the stores of an allocation: where their words are. */
  lemma CarveRoom(m: seq<int>, first: int, bs: seq<Block>, i: nat, hi: int)
    requires Carvable(m, first, bs, i, hi)
    ensures
      var b, prev, next := bs[i], LastFree(bs[..i]), FirstFree(bs[i + 1..]);
      && HEAP_HEADER <= b.addr && b.size % 2 == 1 && b.End() <= hi
      && m[b.addr] == WORD * b.size && m[b.addr + 2] == next && m[b.addr + 3] == prev
      && (prev == 0 || (HEAP_HEADER <= prev < b.addr - 3 && prev != WORD))
      && (next == 0 || b.End() <= next < hi - 3)
      && Between(m, b, prev, next)
  {
    TiledAt(bs, HEAP_HEADER, hi, i);
    Parts(bs, hi, i, i + 1);
    SpreadOf(bs, HEAP_HEADER, hi);
    var l := LastFreeIndex(bs[..i]);
    if l > 0 { assert bs[0].End() <= bs[l].addr; }
  }

  /** The stores of an allocation stay inside the carved block and the links around it. */
  ghost predicate CarveStores(m: seq<int>, m': seq<int>, b: Block, prev: int, next: int) {
    && |m'| == |m|
    && forall w :: 0 <= w < |m| && !(b.addr <= w < b.End()) && w != prev + 2 && w != next + 3
        ==> m'[w] == m[w]
  }

  lemma CarveUntouched(m: seq<int>, m': seq<int>, first: int, bs: seq<Block>, i: nat, hi: int)
    requires Carvable(m, first, bs, i, hi)
    requires CarveStores(m, m', bs[i], LastFree(bs[..i]), FirstFree(bs[i + 1..]))
    ensures Untouched(m, m', bs)
  {
    TiledAt(bs, HEAP_HEADER, hi, i);
    Parts(bs, hi, i, i + 1);
    UntouchedParts(m, m', bs[..i], bs[i + 1..], bs[i].addr, bs[i].End(), hi);
    UntouchedAround(m, m', bs, i, i + 1);
  }

  lemma BrokenTag(m: seq<int>, first: int, bs: seq<Block>, hi: int, i: nat)
    requires i < |bs| && !Tagged(m, bs[i])
    ensures !Inv(m, first, bs, hi)
  {
  }

  lemma BrokenLink(m: seq<int>, first: int, bs: seq<Block>, hi: int, i: nat)
    requires i < |bs| && !bs[i].used && (Tagged(m, bs[i]) ==> !LinkedAt(m, bs, i))
    ensures !Inv(m, first, bs, hi)
  {
  }

  /** Block b lies in memory between the free blocks prev and next. */
  ghost predicate Between(m: seq<int>, b: Block, prev: int, next: int) {
    && HEAP_HEADER <= b.addr && b.size >= 1 && b.End() <= |m|
    && (prev == 0 || HEAP_HEADER <= prev < b.addr - 3)
    && (next == 0 || b.End() <= next < |m| - 3)
  }

  /** The stores that allocate the whole of free block b. */
  ghost predicate WholeStores(m: seq<int>, m': seq<int>, first: int, first': int, b: Block, prev: int, next: int)
    requires Between(m, b, prev, next)
  {
    && CarveStores(m, m', b, prev, next)
    && (forall w :: b.addr <= w < b.End() ==> m'[w] == if w == b.addr + 1 then 1 else m[w])
    && (prev != 0 ==> m'[prev + 2] == next)
    && (next != 0 ==> m'[next + 3] == prev)
    && first' == if prev != 0 then first else next
  }

  lemma WholeDone(m: seq<int>, m': seq<int>, first: int, first': int, bs: seq<Block>, i: nat, n: int, hi: int)
    requires Carvable(m, first, bs, i, hi) && 1 <= n <= bs[i].size < n + 1 + TAGS && n % 2 == 1
    requires
      var prev, next := LastFree(bs[..i]), FirstFree(bs[i + 1..]);
      Between(m, bs[i], prev, next) && WholeStores(m, m', first, first', bs[i], prev, next)
    ensures Inv(m', first', Carve(bs, i, n), hi)
    ensures Untouched(m, m', bs)
  {
    CarveUntouched(m, m', first, bs, i, hi);
    assert Tagged(m', Carved(bs[i], n)[0]);
    CarveDone(m, m', first, first', bs, i, n, hi);
  }

  /** The stores that split free block b; the links are stored last, and may land on the new footer. */
  ghost predicate SplitStores(m: seq<int>, m': seq<int>, first: int, first': int, b: Block, n: int, prev: int,
                              next: int)
    requires Between(m, b, prev, next) && 1 <= n && n + 1 + TAGS <= b.size
  {
    var f, fs := b.addr + n + TAGS, b.size - n - TAGS;
    && CarveStores(m, m', b, prev, next)
    && Tagged(m', Block(b.addr, n, true))
    && m'[f] == WORD * fs && m'[f + 1] % 2 == 0 && m'[f + 2] == next && m'[f + 3] == prev
    && (fs > 1 ==> m'[f + HEADER + fs] == WORD * fs)
    && (prev != 0 ==> m'[prev + 2] == f)
    && (next != 0 ==> m'[next + 3] == f)
    && first' == if prev != 0 then first else f
  }

  lemma SplitDone(m: seq<int>, m': seq<int>, first: int, first': int, bs: seq<Block>, i: nat, n: int, hi: int)
    requires Carvable(m, first, bs, i, hi) && 1 <= n && n + 1 + TAGS <= bs[i].size && n % 2 == 1
    requires
      var prev, next := LastFree(bs[..i]), FirstFree(bs[i + 1..]);
      Between(m, bs[i], prev, next) && SplitStores(m, m', first, first', bs[i], n, prev, next)
    ensures Inv(m', first', Carve(bs, i, n), hi) <==> bs[i].size != n + 1 + TAGS
    ensures Untouched(m, m', bs)
  {
    assert Untouched(m, m', bs) by { CarveUntouched(m, m', first, bs, i, hi); }
    if bs[i].size != n + 1 + TAGS {
      SplitSound(m, m', first, first', bs, i, n, hi);
    } else {
      SplitSliver(m, m', first, first', bs, i, n, hi);
    }
  }

  lemma SplitSound(m: seq<int>, m': seq<int>, first: int, first': int, bs: seq<Block>, i: nat, n: int, hi: int)
    requires Carvable(m, first, bs, i, hi) && 1 <= n && n + 1 + TAGS < bs[i].size && n % 2 == 1
    requires
      var prev, next := LastFree(bs[..i]), FirstFree(bs[i + 1..]);
      Between(m, bs[i], prev, next) && SplitStores(m, m', first, first', bs[i], n, prev, next)
    ensures Inv(m', first', Carve(bs, i, n), hi)
  {
    assert bs[i].size % 2 == 1 by { TiledAt(bs, HEAP_HEADER, hi, i); }
    var C := Carved(bs[i], n);
    assert Tagged(m', C[0]) && Tagged(m', C[1]);
    CarveDone(m, m', first, first', bs, i, n, hi);
  }

  /** The remainder of 8 bytes: its prev link is stored over its footer. */
  lemma SplitSliver(m: seq<int>, m': seq<int>, first: int, first': int, bs: seq<Block>, i: nat, n: int, hi: int)
    requires Carvable(m, first, bs, i, hi) && 1 <= n && n + 1 + TAGS == bs[i].size
    requires
      var prev, next := LastFree(bs[..i]), FirstFree(bs[i + 1..]);
      Between(m, bs[i], prev, next) && SplitStores(m, m', first, first', bs[i], n, prev, next)
    ensures !Inv(m', first', Carve(bs, i, n), hi)
  {
    CarveRoom(m, first, bs, i, hi);
    var b := Carved(bs[i], n)[1];
    assert m'[b.addr + 3] != WORD;
    assert Carve(bs, i, n)[i + 1] == b;
    BrokenTag(m', first', Carve(bs, i, n), hi, i + 1);
  }

  /** The last free block before block i, and what its words say. */
  lemma ListStepBack(m: seq<int>, first: int, bs: seq<Block>, hi: int, i: nat) returns (k: int)
    requires Inv(m, first, bs, hi) && i <= |bs|
    ensures -1 <= k < i && forall j :: k < j < i ==> bs[j].used
    ensures k == -1 <==> LastFree(bs[..i]) == 0
    ensures k >= 0 ==>
      && !bs[k].used && LastFree(bs[..i]) == bs[k].addr && 0 < bs[k].addr < |m| - 3
      && m[bs[k].addr] == WORD * bs[k].size && m[bs[k].addr + 2] == FirstFree(bs[k + 1..])
  {
    assert Placed(bs[..i]) by { SpreadOf(bs, HEAP_HEADER, hi); }
    k := LastFreeIndex(bs[..i]);
    assert forall j :: k < j < i ==> bs[j] == bs[..i][j];
    if k >= 0 { FreeWords(m, first, bs, hi, k); }
  }

  /** The allocated blocks of bs are also blocks of bs'. */
  ghost predicate Keeps(bs: seq<Block>, bs': seq<Block>) {
    forall k :: 0 <= k < |bs| && bs[k].used ==> k < |bs'| && bs'[k] == bs[k]
  }

  /** Allocated blocks stay where they are when a heap grows. */
  lemma SiteKeeps(bs: seq<Block>, pages: nat, maxpages: nat, n: nat)
    requires bs != [] && pages <= maxpages
    ensures Keeps(bs, Site(bs, pages, maxpages, n))
  {
  }

  lemma UntouchedTwice(m: seq<int>, m': seq<int>, m'': seq<int>, bs: seq<Block>, bs': seq<Block>)
    requires Untouched(m, m', bs) && Untouched(m', m'', bs') && Keeps(bs, bs')
    ensures Untouched(m, m'', bs)
  {
  }
}
