/** What freeing a block after the first one stores, when the free block before it is looked for one word too low. */
module HeapMisfree {
  import opened HeapBlocks
  import opened HeapLinks
  import opened HeapSteps
  import opened HeapRelease

  /** The blocks but for block i. */
  function Others(bs: seq<Block>, i: nat): seq<Block>
    requires i < |bs|
  {
    bs[..i] + bs[i + 1..]
  }

  /** Where the merge takes the previous block's header to be. */
  function WrongHeader(bs: seq<Block>, i: nat): int
    requires 0 < i < |bs|
  {
    bs[i - 1].addr - 1
  }

  /** What a merge needs to stay inside the memory until its last store. */
  predicate CanMisfree(m: seq<int>, bs: seq<Block>, i: nat) {
    && 0 < i < |bs| && 0 <= WrongHeader(bs, i) < |m| && 0 <= bs[i].addr < |m| && 0 <= NextFreeHeader(bs, i) < |m|
    && (NextFreeHeader(bs, i) != 0 ==> CanUnlink(m, WrongHeader(bs, i), NextFreeHeader(bs, i)))
  }

  /** The size that is stored: the word that is taken for the previous size, and what is swallowed. */
  function WrongSize(m: seq<int>, bs: seq<Block>, i: nat): int
    requires CanMisfree(m, bs, i)
  {
    m[WrongHeader(bs, i)] + Swallowed(m, bs[i].addr, NextFreeHeader(bs, i))
  }

  /** Where this size is stored as a footer. */
  function Landing(m: seq<int>, bs: seq<Block>, i: nat): int
    requires CanMisfree(m, bs, i)
  {
    WrongHeader(bs, i) + WrongSize(m, bs, i) / WORD + HEADER
  }

  /** The memory after freeing block i; a footer beyond the heap's end hi is not stored. */
  function Misfreed(m: seq<int>, bs: seq<Block>, i: nat, hi: int): (m': seq<int>)
    requires CanMisfree(m, bs, i) && hi <= |m|
    ensures |m'| == |m|
  {
    var fhp, fhn, size, land := WrongHeader(bs, i), NextFreeHeader(bs, i), WrongSize(m, bs, i), Landing(m, bs, i);
    var m1 := (if fhn != 0 then Unlink(m, fhp, fhn) else m)[fhp := size];
    if 0 <= land < hi then m1[land := size] else m1
  }

  /** The words that are stored, and what: all others stay. */
  function MisfreedWord(m: seq<int>, bs: seq<Block>, i: nat, hi: int, w: int): int
    requires CanMisfree(m, bs, i) && 0 <= w < |m|
  {
    var fhp, fhn := WrongHeader(bs, i), NextFreeHeader(bs, i);
    if w == fhp || (w == Landing(m, bs, i) && w < hi) then WrongSize(m, bs, i)
    else if fhn != 0 && m[fhn + 2] != 0 && w == m[fhn + 2] + 3 then fhp
    else if fhn != 0 && w == fhp + 2 then m[fhn + 2]
    else m[w]
  }

  /** What the heap's invariant says about the words around block i and the one before it. */
  lemma MisfreeRoom(m: seq<int>, first: int, bs: seq<Block>, i: nat, hi: int)
    requires Inv(m, first, bs, hi) && 0 < i < |bs| && bs[i].used && m[HEAP_HEADER - 1] >= 0
    ensures CanMisfree(m, bs, i) && WrongHeader(bs, i) >= HEAP_HEADER - 1
    ensures m[WrongHeader(bs, i)] >= 0 && Swallowed(m, bs[i].addr, NextFreeHeader(bs, i)) >= WORD * TAGS
    ensures WrongSize(m, bs, i) >= WORD * TAGS && Landing(m, bs, i) > WrongHeader(bs, i) + HEADER
    ensures NextFreeHeader(bs, i) != 0 ==>
      var next := m[NextFreeHeader(bs, i) + 2]; next == 0 || NextFreeHeader(bs, i) + 3 < next
  {
    MergeRoom(m, first, bs, i, hi);
    BeforeHeader(m, first, bs, hi, i - 1);
    var fhn := NextFreeHeader(bs, i);
    MisplacedWords(m, bs[i - 1], bs[i], fhn, Swallowed(m, bs[i].addr, fhn));
  }

  /** The merge stores exactly that, whether its last store is made or not. */
  lemma MergeMisfrees(m: seq<int>, bs: seq<Block>, i: nat, hi: int)
    requires CanMisfree(m, bs, i) && hi <= |m| && m[WrongHeader(bs, i)] >= 0
    requires Swallowed(m, bs[i].addr, NextFreeHeader(bs, i)) >= WORD * TAGS
    ensures
      var fhp, fhn := WrongHeader(bs, i), NextFreeHeader(bs, i);
      var bytes := Swallowed(m, bs[i].addr, fhn);
      if Landing(m, bs, i) < hi then CanMerge(m, fhp, fhn, bytes) && Misfreed(m, bs, i, hi) == Merge(m, fhp, fhn, bytes)
      else Misfreed(m, bs, i, hi) == (if fhn != 0 then Unlink(m, fhp, fhn) else m)[fhp := m[fhp] + bytes]
  {
    if NextFreeHeader(bs, i) != 0 {
      assert Unlink(m, WrongHeader(bs, i), NextFreeHeader(bs, i))[WrongHeader(bs, i)] == m[WrongHeader(bs, i)];
    }
  }

  /** The exact effect: freeing block i > 0 stores the word before the previous header and one further word, and,
      when the next block is free, the previous block's flags and the prev link of the free block after that one. */
  lemma MisfreedWords(m: seq<int>, first: int, bs: seq<Block>, i: nat, hi: int, w: int)
    requires Inv(m, first, bs, hi) && 0 < i < |bs| && bs[i].used && m[HEAP_HEADER - 1] >= 0 && 0 <= w < |m|
    ensures CanMisfree(m, bs, i) && Misfreed(m, bs, i, hi)[w] == MisfreedWord(m, bs, i, hi, w)
  {
    MisfreeRoom(m, first, bs, i, hi);
  }

  /** Where the further word lies, from the sizes of the blocks: the second block before counts, or the heap's
      reserved word. */
  lemma LandingAt(m: seq<int>, first: int, bs: seq<Block>, i: nat, hi: int)
    requires Inv(m, first, bs, hi) && 0 < i < |bs| && bs[i].used && m[HEAP_HEADER - 1] >= 0
    ensures CanMisfree(m, bs, i)
    ensures var before := if i == 1 then m[HEAP_HEADER - 1] / WORD else bs[i - 2].size;
      var swallowed := bs[i].size + TAGS + (if NextFreeHeader(bs, i) != 0 then bs[i + 1].size + TAGS else 0);
      Landing(m, bs, i) == bs[i - 1].addr + 1 + before + swallowed
  {
    MisfreeRoom(m, first, bs, i, hi);
    SpreadOf(bs, HEAP_HEADER, hi);
    assert Tagged(m, bs[i]);
    if i >= 2 { assert Tagged(m, bs[i - 2]); }
    if NextFreeHeader(bs, i) != 0 { assert Tagged(m, bs[i + 1]); }
    var k := bs[i].size + TAGS + (if NextFreeHeader(bs, i) != 0 then bs[i + 1].size + TAGS else 0);
    assert Swallowed(m, bs[i].addr, NextFreeHeader(bs, i)) == WORD * k;
    BytesOver(m[WrongHeader(bs, i)], k);
  }

  lemma BytesOver(a: int, k: int)
    ensures (a + WORD * k) / WORD == a / WORD + k
    ensures (WORD * k) / WORD == k
  {
  }

  /** The payload of another allocated block in which the footer lands, with a word that it changes. */
  predicate Overwrites(m: seq<int>, bs: seq<Block>, i: nat, hi: int, j: nat)
    requires CanMisfree(m, bs, i) && hi <= |m| && j < |bs|
  {
    var land := Landing(m, bs, i);
    j != i && bs[j].used && 0 <= land < hi && bs[j].Payload(land) && m[land] != WrongSize(m, bs, i)
  }

  /** The words stored besides the footer belong to no payload of an allocated block. */
  lemma StoresOutside(m: seq<int>, first: int, bs: seq<Block>, i: nat, hi: int, j: nat, w: int)
    requires Inv(m, first, bs, hi) && 0 < i < |bs| && bs[i].used && m[HEAP_HEADER - 1] >= 0
    requires j < |bs| && bs[j].used && bs[j].Payload(w) && CanMisfree(m, bs, i)
    ensures 0 <= w < |m| && w != WrongHeader(bs, i)
    ensures NextFreeHeader(bs, i) != 0 ==> w != WrongHeader(bs, i) + 2
    ensures var fhn := NextFreeHeader(bs, i); fhn != 0 && m[fhn + 2] != 0 ==> w != m[fhn + 2] + 3
  {
    SpreadOf(bs, HEAP_HEADER, hi);
    assert Tagged(m, bs[j]);
    if j < i - 1 { assert bs[j].End() <= bs[i - 1].addr; }
    if j > i - 1 { assert bs[i - 1].End() <= bs[j].addr; }
    if NextFreeHeader(bs, i) != 0 { NextIsFree(m, first, bs, i, hi, j, w); }
  }

  /** The free block after the next one is free, so its links are in no payload. */
  lemma NextIsFree(m: seq<int>, first: int, bs: seq<Block>, i: nat, hi: int, j: nat, w: int)
    requires Inv(m, first, bs, hi) && 0 < i < |bs| && bs[i].used && NextFreeHeader(bs, i) != 0
    requires j < |bs| && bs[j].used && bs[j].Payload(w)
    ensures 0 <= NextFreeHeader(bs, i) < |m| - 2
    ensures var next := m[NextFreeHeader(bs, i) + 2]; next != 0 ==> w != next + 3
  {
    BlockWords(m, first, bs, hi, i + 1);
    var next := m[bs[i + 1].addr + 2];
    if next != 0 {
      var k := ListStep(m, first, bs, hi, i + 2);
      FreeBlocksRoomy(m, first, bs, hi, k);
      FreeApart(bs, hi, j, k, w);
    }
  }

  /** A word of an allocated payload is no link of a free block. */
  lemma FreeApart(bs: seq<Block>, hi: int, j: nat, k: nat, w: int)
    requires Tiled(bs, HEAP_HEADER, hi) && j < |bs| && k < |bs| && bs[j].used && !bs[k].used
    requires bs[j].Payload(w) && bs[k].size >= 3
    ensures w != bs[k].addr + 3
  {
    SpreadOf(bs, HEAP_HEADER, hi);
    if j < k { assert bs[j].End() <= bs[k].addr; } else { assert bs[k].End() <= bs[j].addr; }
  }

  /** No other allocated payload is changed by the stores. */
  ghost predicate Spares(m: seq<int>, bs: seq<Block>, i: nat, hi: int)
    requires CanMisfree(m, bs, i) && hi <= |m|
  {
    forall j: nat :: j < |bs| ==> !Overwrites(m, bs, i, hi, j)
  }

  lemma OverwrittenTouched(m: seq<int>, first: int, bs: seq<Block>, i: nat, hi: int, j: nat)
    requires Inv(m, first, bs, hi) && 0 < i < |bs| && bs[i].used && m[HEAP_HEADER - 1] >= 0
    requires CanMisfree(m, bs, i) && j < |bs| && Overwrites(m, bs, i, hi, j)
    ensures !Untouched(m, Misfreed(m, bs, i, hi), Others(bs, i))
  {
    MisfreedWords(m, first, bs, i, hi, Landing(m, bs, i));
    assert Others(bs, i)[if j < i then j else j - 1] == bs[j];
  }

  lemma PayloadSpared(m: seq<int>, first: int, bs: seq<Block>, i: nat, hi: int, j: nat, w: int)
    requires Inv(m, first, bs, hi) && 0 < i < |bs| && bs[i].used && m[HEAP_HEADER - 1] >= 0
    requires CanMisfree(m, bs, i) && j < |bs| && j != i && !Overwrites(m, bs, i, hi, j)
    requires bs[j].used && 0 <= w < |m| && bs[j].Payload(w)
    ensures Misfreed(m, bs, i, hi)[w] == m[w]
  {
    StoresOutside(m, first, bs, i, hi, j, w);
    MisfreedWords(m, first, bs, i, hi, w);
  }

  /** Freeing block i > 0 leaves every other allocated payload as it was if and only if the footer lands in none of
      them, or finds its own value there. */
  lemma MisfreedUntouched(m: seq<int>, first: int, bs: seq<Block>, i: nat, hi: int)
    requires Inv(m, first, bs, hi) && 0 < i < |bs| && bs[i].used && m[HEAP_HEADER - 1] >= 0
    ensures CanMisfree(m, bs, i)
    ensures Untouched(m, Misfreed(m, bs, i, hi), Others(bs, i)) <==> Spares(m, bs, i, hi)
  {
    MisfreeRoom(m, first, bs, i, hi);
    if Spares(m, bs, i, hi) {
      var m', others := Misfreed(m, bs, i, hi), Others(bs, i);
      forall k, w | 0 <= k < |others| && others[k].used && 0 <= w < |m| && others[k].Payload(w)
        ensures m'[w] == m[w]
      {
        var j := if k < i then k else k + 1;
        assert others[k] == bs[j] && !Overwrites(m, bs, i, hi, j);
        PayloadSpared(m, first, bs, i, hi, j, w);
      }
    } else {
      var j: nat :| j < |bs| && Overwrites(m, bs, i, hi, j);
      OverwrittenTouched(m, first, bs, i, hi, j);
    }
  }

  // ----- When the heap stays sound -----

  /** Storing v at word w makes the words of a block say something else: a size, the flag, or a link of a free block. */
  predicate Spoils(m: seq<int>, b: Block, w: int, v: int)
    requires 0 <= w < |m|
  {
    || ((w == b.addr || w == b.addr + HEADER + b.size) && v != WORD * b.size)
    || (w == b.addr + 1 && v % 2 != (if b.used then 1 else 0))
    || (!b.used && (w == b.addr + 2 || w == b.addr + 3) && v != m[w])
  }

  /** The misplaced footer is not stored, or spoils no block. */
  ghost predicate LandsWell(m: seq<int>, bs: seq<Block>, i: nat, hi: int)
    requires CanMisfree(m, bs, i) && hi <= |m|
  {
    0 <= Landing(m, bs, i) < hi ==> forall j: nat :: j < |bs| ==>
      !Spoils(m, bs[j], Landing(m, bs, i), WrongSize(m, bs, i))
  }

  /** The misplaced unlinking, if there is one, changes nothing: the first block is free, and the next one is the
      last free block. */
  predicate UnlinksNothing(m: seq<int>, bs: seq<Block>, i: nat)
    requires CanMisfree(m, bs, i)
  {
    NextFreeHeader(bs, i) != 0 ==> !bs[i - 1].used && m[NextFreeHeader(bs, i) + 2] == 0
  }

  /** Freeing block i leaves a sound heap in which it is still allocated. */
  ghost predicate OnlyLeaks(m: seq<int>, bs: seq<Block>, i: nat, hi: int)
    requires CanMisfree(m, bs, i) && hi <= |m|
  {
    i == 1 && UnlinksNothing(m, bs, i) && LandsWell(m, bs, i, hi)
  }

  /** From the third block on the footer of the second block before is overwritten. */
  lemma LaterBreaks(m: seq<int>, first: int, bs: seq<Block>, i: nat, hi: int)
    requires Inv(m, first, bs, hi) && 1 < i < |bs| && bs[i].used && m[HEAP_HEADER - 1] >= 0
    ensures CanMisfree(m, bs, i) && !Inv(Misfreed(m, bs, i, hi), first, bs, hi)
  {
    MisfreeRoom(m, first, bs, i, hi);
    SpreadOf(bs, HEAP_HEADER, hi);
    var b := bs[i - 2];
    assert b.End() == bs[i - 1].addr;
    assert Tagged(m, b);
    MisfreedWords(m, first, bs, i, hi, WrongHeader(bs, i));
    BrokenTag(Misfreed(m, bs, i, hi), first, bs, hi, i - 2);
  }

  /** A block's word after freeing the second block, where nothing is unlinked and the footer lands well. */
  lemma WordStays(m: seq<int>, first: int, bs: seq<Block>, hi: int, j: nat, w: int)
    requires Inv(m, first, bs, hi) && 1 < |bs| && bs[1].used && m[HEAP_HEADER - 1] >= 0
    requires CanMisfree(m, bs, 1) && OnlyLeaks(m, bs, 1, hi)
    requires j < |bs| && bs[j].addr <= w < bs[j].End()
    ensures 0 <= w < |m|
    ensures var v := Misfreed(m, bs, 1, hi)[w];
      || v == m[w]
      || (w == bs[j].addr + 1 && v == 0 && !bs[j].used)
      || !Spoils(m, bs[j], w, v)
  {
    SpreadOf(bs, HEAP_HEADER, hi);
    assert bs[0].addr == HEAP_HEADER && (j > 0 ==> bs[0].End() <= bs[j].addr);
    MisfreedWords(m, first, bs, 1, hi, w);
  }

  lemma TagStays(m: seq<int>, first: int, bs: seq<Block>, hi: int, j: nat)
    requires Inv(m, first, bs, hi) && 1 < |bs| && bs[1].used && m[HEAP_HEADER - 1] >= 0
    requires CanMisfree(m, bs, 1) && OnlyLeaks(m, bs, 1, hi) && j < |bs|
    ensures Tagged(Misfreed(m, bs, 1, hi), bs[j])
  {
    var b := bs[j];
    assert Tagged(m, b);
    WordStays(m, first, bs, hi, j, b.addr);
    WordStays(m, first, bs, hi, j, b.addr + 1);
    WordStays(m, first, bs, hi, j, b.addr + HEADER + b.size);
  }

  lemma LinksStay(m: seq<int>, first: int, bs: seq<Block>, hi: int, j: nat)
    requires Inv(m, first, bs, hi) && 1 < |bs| && bs[1].used && m[HEAP_HEADER - 1] >= 0
    requires CanMisfree(m, bs, 1) && OnlyLeaks(m, bs, 1, hi) && j < |bs| && !bs[j].used
    requires Tagged(Misfreed(m, bs, 1, hi), bs[j])
    ensures LinkedAt(Misfreed(m, bs, 1, hi), bs, j)
  {
    FreeWords(m, first, bs, hi, j);
    FreeBlocksRoomy(m, first, bs, hi, j);
    WordStays(m, first, bs, hi, j, bs[j].addr + 2);
    WordStays(m, first, bs, hi, j, bs[j].addr + 3);
  }

  lemma LeakSound(m: seq<int>, first: int, bs: seq<Block>, i: nat, hi: int)
    requires Inv(m, first, bs, hi) && 0 < i < |bs| && bs[i].used && m[HEAP_HEADER - 1] >= 0
    requires CanMisfree(m, bs, i) && OnlyLeaks(m, bs, i, hi)
    ensures Inv(Misfreed(m, bs, i, hi), first, bs, hi)
  {
    forall j | 0 <= j < |bs|
      ensures Tagged(Misfreed(m, bs, i, hi), bs[j])
      ensures !bs[j].used ==> LinkedAt(Misfreed(m, bs, i, hi), bs, j)
    {
      TagStays(m, first, bs, hi, j);
      if !bs[j].used { LinksStay(m, first, bs, hi, j); }
    }
  }

  /** A free list's link is an even address, or 0. */
  lemma LinkEven(bs: seq<Block>, hi: int, k: nat)
    requires Tiled(bs, HEAP_HEADER, hi) && k <= |bs|
    ensures FirstFree(bs[k..]) % 2 == 0
  {
    SpreadOf(bs, HEAP_HEADER, hi);
    var n := NextFreeIndex(bs, k);
    if n < |bs| { TiledAt(bs, HEAP_HEADER, hi, n); }
  }

  /** The misplaced unlinking stores the next block's next link over the flags of the block before. */
  lemma FlagWord(m: seq<int>, first: int, bs: seq<Block>, i: nat, hi: int)
    requires Inv(m, first, bs, hi) && 0 < i < |bs| && bs[i].used && m[HEAP_HEADER - 1] >= 0
    requires NextFreeHeader(bs, i) != 0
    ensures CanMisfree(m, bs, i) && 0 <= bs[i - 1].addr + 1 < |m|
    ensures Misfreed(m, bs, i, hi)[bs[i - 1].addr + 1] == FirstFree(bs[i + 2..])
  {
    MisfreeRoom(m, first, bs, i, hi);
    assert bs[i - 1].addr < bs[i + 1].addr by { SpreadOf(bs, HEAP_HEADER, hi); }
    FreeWords(m, first, bs, hi, i + 1);
    MisfreedWords(m, first, bs, i, hi, bs[i - 1].addr + 1);
  }

  /** With an allocated first block the misplaced link clears its flag. */
  lemma FlagBroken(m: seq<int>, first: int, bs: seq<Block>, hi: int)
    requires Inv(m, first, bs, hi) && 1 < |bs| && bs[1].used && m[HEAP_HEADER - 1] >= 0
    requires NextFreeHeader(bs, 1) != 0 && bs[0].used
    ensures CanMisfree(m, bs, 1) && !Inv(Misfreed(m, bs, 1, hi), first, bs, hi)
  {
    FlagWord(m, first, bs, 1, hi);
    LinkEven(bs, hi, 3);
    BrokenTag(Misfreed(m, bs, 1, hi), first, bs, hi, 0);
  }

  /** With a free block after the next one that block's link is broken. */
  lemma LinkBroken(m: seq<int>, first: int, bs: seq<Block>, hi: int)
    requires Inv(m, first, bs, hi) && 1 < |bs| && bs[1].used && m[HEAP_HEADER - 1] >= 0
    requires NextFreeHeader(bs, 1) != 0 && 0 <= NextFreeHeader(bs, 1) + 2 < |m| && m[NextFreeHeader(bs, 1) + 2] != 0
    ensures CanMisfree(m, bs, 1) && !Inv(Misfreed(m, bs, 1, hi), first, bs, hi)
  {
    MisfreeRoom(m, first, bs, 1, hi);
    SpreadOf(bs, HEAP_HEADER, hi);
    FreeWords(m, first, bs, hi, 2);
    var k := ListStep(m, first, bs, hi, 3);
    var w, m' := bs[k].addr + 3, Misfreed(m, bs, 1, hi);
    assert bs[2].End() <= bs[k].addr;
    LastFreeBefore(bs, hi, 2, k);
    MisfreedWords(m, first, bs, 1, hi, w);
    assert m'[w] != LastFree(bs[..k]);
    assert Inv(m', first, bs, hi) ==> LinkedAt(m', bs, k);
  }

  /** The last free block before block k is block j or a later one. */
  lemma LastFreeBefore(bs: seq<Block>, hi: int, j: nat, k: nat)
    requires Tiled(bs, HEAP_HEADER, hi) && j < k <= |bs| && !bs[j].used
    ensures bs[j].addr <= LastFree(bs[..k]) && (k < |bs| ==> LastFree(bs[..k]) < bs[k].addr)
  {
    SpreadOf(bs, HEAP_HEADER, hi);
    assert Placed(bs[..k]);
    var l := LastFreeIndex(bs[..k]);
    assert bs[..k][j] == bs[j];
    if l > j { assert bs[j].End() <= bs[l].addr; }
  }

  /** A footer that spoils a block breaks the heap. */
  lemma LandingBroken(m: seq<int>, first: int, bs: seq<Block>, hi: int, j: nat)
    requires Inv(m, first, bs, hi) && 1 < |bs| && bs[1].used && m[HEAP_HEADER - 1] >= 0 && j < |bs|
    requires CanMisfree(m, bs, 1) && 0 <= Landing(m, bs, 1) < hi
    requires Spoils(m, bs[j], Landing(m, bs, 1), WrongSize(m, bs, 1))
    ensures !Inv(Misfreed(m, bs, 1, hi), first, bs, hi)
  {
    var m', b, w, v := Misfreed(m, bs, 1, hi), bs[j], Landing(m, bs, 1), WrongSize(m, bs, 1);
    MisfreedWords(m, first, bs, 1, hi, w);
    if !b.used && (w == b.addr + 2 || w == b.addr + 3) && v != m[w] {
      FreeWords(m, first, bs, hi, j);
      BrokenLink(m', first, bs, hi, j);
    } else {
      BrokenTag(m', first, bs, hi, j);
    }
  }

  /** Freeing block i > 0 leaves a sound heap, in which the block is still allocated, if and only if it is the
      second block, nothing is unlinked, and the misplaced footer spoils no block or lies beyond the heap. */
  lemma MisfreedSound(m: seq<int>, first: int, bs: seq<Block>, i: nat, hi: int)
    requires Inv(m, first, bs, hi) && 0 < i < |bs| && bs[i].used && m[HEAP_HEADER - 1] >= 0
    ensures CanMisfree(m, bs, i)
    ensures Inv(Misfreed(m, bs, i, hi), first, bs, hi) <==> OnlyLeaks(m, bs, i, hi)
    ensures Misfreed(m, bs, i, hi)[HEAP_HEADER - 1] >= 0
  {
    MisfreeRoom(m, first, bs, i, hi);
    MisfreedWords(m, first, bs, i, hi, HEAP_HEADER - 1);
    if OnlyLeaks(m, bs, i, hi) {
      LeakSound(m, first, bs, i, hi);
    } else if i > 1 {
      LaterBreaks(m, first, bs, i, hi);
    } else if !UnlinksNothing(m, bs, i) {
      if bs[0].used { FlagBroken(m, first, bs, hi); } else { LinkBroken(m, first, bs, hi); }
    } else {
      var j: nat :| j < |bs| && Spoils(m, bs[j], Landing(m, bs, i), WrongSize(m, bs, i));
      LandingBroken(m, first, bs, hi, j);
    }
  }

  // ----- An example -----

  function PackedBlocks(): seq<Block> {
    [Block(6, 9, true), Block(18, 3, true), Block(24, 5, true)]
  }

  function PackedMemory(): seq<int> {
    [0, 0, 0, 0, 0, 0,   72, 1, 0, 0, 0, 0, 0, 0, 0, 0, 0, 72,
     24, 1, 0, 0, 0, 24,   40, 1, 0, 0, 0, 0, 0, 40]
  }

  lemma PackedSound()
    ensures Inv(PackedMemory(), 0, PackedBlocks(), 32)
  {
    var bs := PackedBlocks();
    assert bs[1..] == [Block(18, 3, true), Block(24, 5, true)];
    assert bs[1..][1..] == [Block(24, 5, true)];
    assert bs[1..][1..][1..] == [];
  }

  lemma PackedLanding()
    ensures var m, bs := PackedMemory(), PackedBlocks();
      CanMisfree(m, bs, 1) && WrongSize(m, bs, 1) == 48 && Landing(m, bs, 1) == 13
  {
    PackedSound();
    MisfreeRoom(PackedMemory(), 0, PackedBlocks(), 1, 32);
  }

  /** In a concrete sound heap, freeing the second block stores into the payload of the first. */
  lemma PayloadOverwritten()
    ensures var m, bs := PackedMemory(), PackedBlocks();
      && Inv(m, 0, bs, 32) && CanMisfree(m, bs, 1) && bs[0].used && bs[0].Payload(13)
      && m[13] == 0 && Misfreed(m, bs, 1, 32)[13] == 48 && !Untouched(m, Misfreed(m, bs, 1, 32), Others(bs, 1))
  {
    PackedSound();
    PackedLanding();
    var m, bs := PackedMemory(), PackedBlocks();
    MisfreedWords(m, 0, bs, 1, 32, 13);
    assert Overwrites(m, bs, 1, 32, 0);
    MisfreedUntouched(m, 0, bs, 1, 32);
  }

  function LeakBlocks(): seq<Block> {
    [Block(6, 3, true), Block(12, 5, true)]
  }

  function LeakMemory(): seq<int> {
    [0, 0, 0, 0, 0, 0,   24, 1, 0, 0, 0, 24,   40, 1, 0, 0, 0, 0, 0, 40]
  }

  /** In a concrete heap, freeing the second block only leaks it: the heap stays sound and the other payload as it
      was. */
  lemma SecondBlockLeaks()
    ensures var m, bs := LeakMemory(), LeakBlocks();
      && Inv(m, 0, bs, 20) && CanMisfree(m, bs, 1)
      && Inv(Misfreed(m, bs, 1, 20), 0, bs, 20) && Untouched(m, Misfreed(m, bs, 1, 20), Others(bs, 1))
  {
    var m, bs := LeakMemory(), LeakBlocks();
    assert bs[1..] == [Block(12, 5, true)] && bs[1..][1..] == [];
    assert Inv(m, 0, bs, 20);
    MisfreeRoom(m, 0, bs, 1, 20);
    assert WrongSize(m, bs, 1) == 64 && Landing(m, bs, 1) == 15;
    MisfreedSound(m, 0, bs, 1, 20);
    MisfreedUntouched(m, 0, bs, 1, 20);
  }
}
