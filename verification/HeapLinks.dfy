/** How the free-list links survive when the blocks in the middle of a heap are replaced. */
module HeapLinks {
  import opened HeapBlocks

  ghost predicate Placed(bs: seq<Block>) {
    forall i :: 0 <= i < |bs| ==> bs[i].addr > 0
  }

  lemma {:induction false} FirstFreeConcat(a: seq<Block>, b: seq<Block>)
    requires Placed(a)
    ensures FirstFree(a + b) == if FirstFree(a) != 0 then FirstFree(a) else FirstFree(b)
  {
    if a == [] {
      assert a + b == b;
    } else {
      assert (a + b)[1..] == a[1..] + b;
      if a[0].used { FirstFreeConcat(a[1..], b); }
    }
  }

  lemma {:induction false} LastFreeConcat(a: seq<Block>, b: seq<Block>)
    requires Placed(b)
    ensures LastFree(a + b) == if LastFree(b) != 0 then LastFree(b) else LastFree(a)
  {
    if b == [] {
      assert a + b == a;
    } else {
      assert (a + b)[..|a + b| - 1] == a + b[..|b| - 1];
      if b[|b| - 1].used { LastFreeConcat(a, b[..|b| - 1]); }
    }
  }

  /** The first free block, as an index. */
  lemma {:induction false} FirstFreeIndex(bs: seq<Block>) returns (i: nat)
    requires Placed(bs)
    ensures i <= |bs|
    ensures forall j :: 0 <= j < i ==> bs[j].used
    ensures i < |bs| ==> !bs[i].used && FirstFree(bs) == bs[i].addr
    ensures i == |bs| ==> FirstFree(bs) == 0
  {
    if bs == [] || !bs[0].used { return 0; }
    i := FirstFreeIndex(bs[1..]);
    i := i + 1;
  }

  /** The last free block, as an index. */
  lemma {:induction false} LastFreeIndex(bs: seq<Block>) returns (i: int)
    requires Placed(bs)
    ensures -1 <= i < |bs|
    ensures forall j :: i < j < |bs| ==> bs[j].used
    ensures i >= 0 ==> !bs[i].used && LastFree(bs) == bs[i].addr
    ensures i == -1 ==> LastFree(bs) == 0
  {
    if bs == [] { return -1; }
    if !bs[|bs| - 1].used { return |bs| - 1; }
    i := LastFreeIndex(bs[..|bs| - 1]);
  }

  lemma {:induction false} FirstFreeSkip(bs: seq<Block>, a: nat, b: nat)
    requires a <= b <= |bs| && forall j :: a <= j < b ==> bs[j].used
    ensures FirstFree(bs[a..]) == FirstFree(bs[b..])
    ensures b < |bs| && !bs[b].used ==> FirstFree(bs[a..]) == bs[b].addr
    decreases b - a
  {
    if a < b {
      assert bs[a..][1..] == bs[a + 1..];
      FirstFreeSkip(bs, a + 1, b);
    }
  }

  lemma {:induction false} LastFreeSkip(bs: seq<Block>, a: nat, b: nat)
    requires a <= b <= |bs| && forall j :: a <= j < b ==> bs[j].used
    ensures LastFree(bs[..b]) == LastFree(bs[..a])
    ensures a > 0 && !bs[a - 1].used ==> LastFree(bs[..b]) == bs[a - 1].addr
    decreases b - a
  {
    if a < b {
      assert bs[..b][..b - 1] == bs[..b - 1];
      LastFreeSkip(bs, a, b - 1);
    }
  }

  lemma NoneFree(bs: seq<Block>)
    requires Placed(bs)
    ensures FirstFree(bs) == 0 <==> LastFree(bs) == 0
  {
    var f := FirstFreeIndex(bs);
    var l := LastFreeIndex(bs);
  }

  /** Like LinkedAt, but the last free block's next link may be anything. */
  ghost predicate LeftLinkedAt(m: seq<int>, bs: seq<Block>, i: int)
    requires 0 <= i < |bs| && Tagged(m, bs[i])
  {
    && m[bs[i].addr + 3] == LastFree(bs[..i])
    && (FirstFree(bs[i + 1..]) != 0 ==> m[bs[i].addr + 2] == FirstFree(bs[i + 1..]))
  }

  /** Like LinkedAt, but the first free block's prev link may be anything. */
  ghost predicate RightLinkedAt(m: seq<int>, bs: seq<Block>, i: int)
    requires 0 <= i < |bs| && Tagged(m, bs[i])
  {
    && m[bs[i].addr + 2] == FirstFree(bs[i + 1..])
    && (LastFree(bs[..i]) != 0 ==> m[bs[i].addr + 3] == LastFree(bs[..i]))
  }

  ghost predicate LeftOk(m: seq<int>, bs: seq<Block>) {
    AllTagged(m, bs) && forall i {:trigger LeftLinkedAt(m, bs, i)} :: 0 <= i < |bs| && !bs[i].used ==>
      LeftLinkedAt(m, bs, i)
  }

  ghost predicate RightOk(m: seq<int>, bs: seq<Block>) {
    AllTagged(m, bs) && forall i {:trigger RightLinkedAt(m, bs, i)} :: 0 <= i < |bs| && !bs[i].used ==>
      RightLinkedAt(m, bs, i)
  }

  lemma LeftLinkOfInv(m: seq<int>, bs: seq<Block>, k: nat, i: nat)
    requires i < k <= |bs| && Tagged(m, bs[i]) && LinkedAt(m, bs, i) && Placed(bs)
    ensures LeftLinkedAt(m, bs[..k], i)
  {
    var L := bs[..k];
    assert L[..i] == bs[..i];
    assert bs[i + 1..] == L[i + 1..] + bs[k..];
    FirstFreeConcat(L[i + 1..], bs[k..]);
  }

  lemma LeftOfInv(m: seq<int>, first: int, bs: seq<Block>, hi: int, k: nat)
    requires Inv(m, first, bs, hi) && k <= |bs|
    ensures LeftOk(m, bs[..k])
  {
    SpreadOf(bs, HEAP_HEADER, hi);
    forall i | 0 <= i < k && !bs[i].used
      ensures LeftLinkedAt(m, bs[..k], i)
    {
      LeftLinkOfInv(m, bs, k, i);
    }
  }

  lemma RightLinkOfInv(m: seq<int>, bs: seq<Block>, k: nat, i: nat)
    requires k + i < |bs| && Tagged(m, bs[k + i]) && LinkedAt(m, bs, k + i) && Placed(bs)
    ensures RightLinkedAt(m, bs[k..], i)
  {
    var R := bs[k..];
    assert R[i + 1..] == bs[k + i + 1..];
    assert bs[..k + i] == bs[..k] + R[..i];
    LastFreeConcat(bs[..k], R[..i]);
  }

  lemma RightOfInv(m: seq<int>, first: int, bs: seq<Block>, hi: int, k: nat)
    requires Inv(m, first, bs, hi) && k <= |bs|
    ensures RightOk(m, bs[k..])
  {
    SpreadOf(bs, HEAP_HEADER, hi);
    var R := bs[k..];
    forall i | 0 <= i < |R| ensures Tagged(m, R[i]) { assert Tagged(m, bs[k + i]); }
    forall i | 0 <= i < |R| && !R[i].used
      ensures RightLinkedAt(m, R, i)
    {
      assert LinkedAt(m, bs, k + i);
      RightLinkOfInv(m, bs, k, i);
    }
  }

  /** A free block of a sound heap is big enough for its links not to touch its footer. */
  lemma FreeBlocksRoomy(m: seq<int>, first: int, bs: seq<Block>, hi: int, k: nat)
    requires Inv(m, first, bs, hi) && k < |bs| && !bs[k].used
    ensures bs[k].size >= 3
  {
    SpreadOf(bs, HEAP_HEADER, hi);
    TiledAt(bs, HEAP_HEADER, hi, k);
    assert Tagged(m, bs[k]) && LinkedAt(m, bs, k);
    var p := LastFreeIndex(bs[..k]);
    assert m[bs[k].addr + 3] == LastFree(bs[..k]);
  }

  lemma LeftFrameAt(m: seq<int>, m': seq<int>, bs: seq<Block>, lo: int, hi: int, i: nat)
    requires LeftOk(m, bs) && |m| == |m'| && hi <= |m| && lo >= HEAP_HEADER && Spread(bs, lo, hi) && i < |bs|
    requires forall w :: lo <= w < hi && w != LastFree(bs) + 2 ==> m'[w] == m[w]
    ensures Tagged(m', bs[i])
    ensures !bs[i].used ==> LeftLinkedAt(m', bs, i)
  {
    var k := LastFreeIndex(bs);
    assert Tagged(m, bs[i]);
    if 0 <= k && i < k { assert bs[i].End() <= bs[k].addr; }
    if 0 <= k < i { assert bs[k].End() <= bs[i].addr; }
    if !bs[i].used {
      assert LeftLinkedAt(m, bs, i);
      if i == k { var n := FirstFreeIndex(bs[i + 1..]); }
    }
  }

  lemma LeftFrame(m: seq<int>, m': seq<int>, bs: seq<Block>, lo: int, hi: int)
    requires LeftOk(m, bs) && |m| == |m'| && hi <= |m| && lo >= HEAP_HEADER && Spread(bs, lo, hi)
    requires forall w :: lo <= w < hi && w != LastFree(bs) + 2 ==> m'[w] == m[w]
    ensures LeftOk(m', bs)
  {
    forall i | 0 <= i < |bs|
      ensures Tagged(m', bs[i]) && (!bs[i].used ==> LeftLinkedAt(m', bs, i))
    {
      LeftFrameAt(m, m', bs, lo, hi, i);
    }
  }

  lemma RightFrameAt(m: seq<int>, m': seq<int>, bs: seq<Block>, lo: int, hi: int, i: nat)
    requires RightOk(m, bs) && |m| == |m'| && hi <= |m| && lo >= HEAP_HEADER && Spread(bs, lo, hi) && i < |bs|
    requires forall i :: 0 <= i < |bs| && !bs[i].used ==> bs[i].size >= 3
    requires forall w :: lo <= w < hi && w != FirstFree(bs) + 3 ==> m'[w] == m[w]
    ensures Tagged(m', bs[i])
    ensures !bs[i].used ==> RightLinkedAt(m', bs, i)
  {
    var k := FirstFreeIndex(bs);
    assert Tagged(m, bs[i]);
    if k < |bs| && i < k { assert bs[i].End() <= bs[k].addr; }
    if k < i { assert bs[k].End() <= bs[i].addr; }
    if !bs[i].used {
      assert RightLinkedAt(m, bs, i);
      if i == k { var n := LastFreeIndex(bs[..i]); }
    }
  }

  lemma RightFrame(m: seq<int>, m': seq<int>, bs: seq<Block>, lo: int, hi: int)
    requires RightOk(m, bs) && |m| == |m'| && hi <= |m| && lo >= HEAP_HEADER && Spread(bs, lo, hi)
    requires forall i :: 0 <= i < |bs| && !bs[i].used ==> bs[i].size >= 3
    requires forall w :: lo <= w < hi && w != FirstFree(bs) + 3 ==> m'[w] == m[w]
    ensures RightOk(m', bs)
  {
    forall i | 0 <= i < |bs|
      ensures Tagged(m', bs[i]) && (!bs[i].used ==> RightLinkedAt(m', bs, i))
    {
      RightFrameAt(m, m', bs, lo, hi, i);
    }
  }

  /** The free block after block i of L, in L + R. */
  lemma NextFree(L: seq<Block>, R: seq<Block>, i: nat)
    requires Placed(L) && i < |L| && !L[i].used
    ensures FirstFree((L + R)[i + 1..]) ==
      if FirstFree(L[i + 1..]) != 0 then FirstFree(L[i + 1..]) else FirstFree(R)
    ensures FirstFree(L[i + 1..]) == 0 ==> LastFree(L) == L[i].addr
  {
    assert (L + R)[i + 1..] == L[i + 1..] + R;
    FirstFreeConcat(L[i + 1..], R);
    var n := FirstFreeIndex(L[i + 1..]);
    var l := LastFreeIndex(L);
    assert l > i ==> L[l] == L[i + 1..][l - i - 1];
  }

  /** The free block before block i of R, in L + R. */
  lemma PrevFree(L: seq<Block>, R: seq<Block>, i: nat)
    requires Placed(R) && i < |R| && !R[i].used
    ensures LastFree((L + R)[..|L| + i]) ==
      if LastFree(R[..i]) != 0 then LastFree(R[..i]) else LastFree(L)
    ensures LastFree(R[..i]) == 0 ==> FirstFree(R) == R[i].addr
  {
    assert (L + R)[..|L| + i] == L + R[..i];
    LastFreeConcat(L, R[..i]);
    var n := LastFreeIndex(R[..i]);
    var r := FirstFreeIndex(R);
    assert r < i ==> R[r] == R[..i][r];
  }

  lemma SpliceLeft(m: seq<int>, L: seq<Block>, R: seq<Block>, i: nat)
    requires Placed(L) && Placed(R) && LeftOk(m, L) && i < |L| && !L[i].used
    requires LastFree(L) != 0 ==> 0 <= LastFree(L) < |m| - 2 && m[LastFree(L) + 2] == FirstFree(R)
    ensures Tagged(m, (L + R)[i]) && LinkedAt(m, L + R, i)
  {
    assert Tagged(m, L[i]) && LeftLinkedAt(m, L, i);
    assert (L + R)[..i] == L[..i];
    NextFree(L, R, i);
  }

  lemma SpliceRight(m: seq<int>, L: seq<Block>, R: seq<Block>, i: nat)
    requires Placed(L) && Placed(R) && RightOk(m, R) && i < |R| && !R[i].used
    requires FirstFree(R) != 0 ==> 0 <= FirstFree(R) < |m| - 3 && m[FirstFree(R) + 3] == LastFree(L)
    ensures Tagged(m, (L + R)[|L| + i]) && LinkedAt(m, L + R, |L| + i)
  {
    assert Tagged(m, R[i]) && RightLinkedAt(m, R, i);
    assert (L + R)[|L| + i] == R[i];
    assert (L + R)[|L| + i + 1..] == R[i + 1..];
    PrevFree(L, R, i);
  }

  ghost predicate JoinedAt(m: seq<int>, L: seq<Block>, M: seq<Block>, R: seq<Block>, i: int)
    requires 0 <= i < |M| && Tagged(m, M[i])
  {
    m[M[i].addr + 2] == FirstFree(M[i + 1..] + R) && m[M[i].addr + 3] == LastFree(L + M[..i])
  }

  /** The links M needs: its own, the one on either side, and the list head. */
  ghost predicate Joined(m: seq<int>, first: int, L: seq<Block>, M: seq<Block>, R: seq<Block>) {
    && AllTagged(m, M)
    && (forall i :: 0 <= i < |M| && !M[i].used ==> JoinedAt(m, L, M, R, i))
    && first == (if LastFree(L) == 0 then FirstFree(M + R) else FirstFree(L))
    && (LastFree(L) != 0 ==> 0 <= LastFree(L) < |m| - 2 && m[LastFree(L) + 2] == FirstFree(M + R))
    && (FirstFree(R) != 0 ==> 0 <= FirstFree(R) < |m| - 3 && m[FirstFree(R) + 3] == LastFree(L + M))
  }

  lemma SpliceMiddle(m: seq<int>, L: seq<Block>, M: seq<Block>, R: seq<Block>, i: nat)
    requires i < |M| && Tagged(m, M[i]) && JoinedAt(m, L, M, R, i)
    ensures Tagged(m, (L + M + R)[|L| + i])
    ensures LinkedAt(m, L + M + R, |L| + i)
  {
    var bs, k := L + M + R, |L| + i;
    assert bs[k] == M[i];
    assert bs[..k] == L + M[..i];
    assert bs[k + 1..] == M[i + 1..] + R;
  }

  /** Blocks lo..hi of bs are tagged and, where free, linked. */
  ghost predicate SoundRange(m: seq<int>, bs: seq<Block>, lo: nat, hi: nat)
    requires hi <= |bs|
  {
    forall i :: lo <= i < hi ==> Tagged(m, bs[i]) && (!bs[i].used ==> LinkedAt(m, bs, i))
  }

  lemma SoundLeft(m: seq<int>, L: seq<Block>, R: seq<Block>)
    requires Placed(L) && Placed(R) && LeftOk(m, L)
    requires LastFree(L) != 0 ==> 0 <= LastFree(L) < |m| - 2 && m[LastFree(L) + 2] == FirstFree(R)
    ensures SoundRange(m, L + R, 0, |L|)
  {
    forall i | 0 <= i < |L|
      ensures Tagged(m, (L + R)[i]) && (!(L + R)[i].used ==> LinkedAt(m, L + R, i))
    {
      assert (L + R)[i] == L[i] && Tagged(m, L[i]);
      if !L[i].used { SpliceLeft(m, L, R, i); }
    }
  }

  lemma SoundRight(m: seq<int>, L: seq<Block>, R: seq<Block>)
    requires Placed(L) && Placed(R) && RightOk(m, R)
    requires FirstFree(R) != 0 ==> 0 <= FirstFree(R) < |m| - 3 && m[FirstFree(R) + 3] == LastFree(L)
    ensures SoundRange(m, L + R, |L|, |L + R|)
  {
    forall i | |L| <= i < |L + R|
      ensures Tagged(m, (L + R)[i]) && (!(L + R)[i].used ==> LinkedAt(m, L + R, i))
    {
      var k := i - |L|;
      assert (L + R)[i] == R[k] && Tagged(m, R[k]);
      if !R[k].used { SpliceRight(m, L, R, k); }
    }
  }

  lemma SoundMiddleAt(m: seq<int>, first: int, L: seq<Block>, M: seq<Block>, R: seq<Block>, k: nat)
    requires Joined(m, first, L, M, R) && k < |M|
    ensures (L + M + R)[|L| + k] == M[k] && Tagged(m, M[k])
    ensures !M[k].used ==> LinkedAt(m, L + M + R, |L| + k)
  {
    assert Tagged(m, M[k]);
    if !M[k].used { SpliceMiddle(m, L, M, R, k); }
  }

  lemma SoundMiddle(m: seq<int>, first: int, L: seq<Block>, M: seq<Block>, R: seq<Block>)
    requires Joined(m, first, L, M, R)
    ensures SoundRange(m, L + M + R, |L|, |L + M|)
  {
    var bs := L + M + R;
    forall i | |L| <= i < |L + M|
      ensures Tagged(m, bs[i]) && (!bs[i].used ==> LinkedAt(m, bs, i))
    {
      SoundMiddleAt(m, first, L, M, R, i - |L|);
    }
  }

  lemma PlacedParts(L: seq<Block>, M: seq<Block>, R: seq<Block>, hi: int)
    requires Tiled(L + M + R, HEAP_HEADER, hi)
    ensures Placed(L) && Placed(M) && Placed(R)
  {
    SpreadOf(L + M + R, HEAP_HEADER, hi);
    var bs := L + M + R;
    forall i | 0 <= i < |L| ensures L[i].addr > 0 { assert bs[i] == L[i]; }
    forall i | 0 <= i < |M| ensures M[i].addr > 0 { assert bs[|L| + i] == M[i]; }
    forall i | 0 <= i < |R| ensures R[i].addr > 0 { assert bs[|L| + |M| + i] == R[i]; }
  }

  /**
    Blocks M between a left part L and a right part R make a sound heap once the links around
    M, and the list head, have been set for M.
  */
  lemma Splice(m: seq<int>, first: int, L: seq<Block>, M: seq<Block>, R: seq<Block>, hi: int)
    requires M != [] && Tiled(L + M + R, HEAP_HEADER, hi) && hi <= |m| && Coalesced(L + M + R)
    requires LeftOk(m, L) && RightOk(m, R) && Joined(m, first, L, M, R)
    ensures Inv(m, first, L + M + R, hi)
  {
    var bs := L + M + R;
    PlacedParts(L, M, R, hi);
    assert HEAP_HEADER <= hi by { SpreadOf(bs, HEAP_HEADER, hi); }
    assert bs == L + (M + R);
    assert SoundRange(m, bs, 0, |bs|) by {
      SoundLeft(m, L, M + R);
      SoundMiddle(m, first, L, M, R);
      SoundRight(m, L + M, R);
    }
    FirstFreeConcat(L, M + R);
    NoneFree(L);
  }

  /**
    The heap is as it was in m outside words lo..end, up to the next link of the last free block
    before them and the prev link of the first free block after them.
  */
  ghost predicate ChangedWithin(m: seq<int>, m': seq<int>, L: seq<Block>, R: seq<Block>, lo: int, end: int, hi: int)
    requires |m| == |m'| && HEAP_HEADER <= lo <= end <= hi <= |m|
  {
    && (forall w :: HEAP_HEADER <= w < lo && w != LastFree(L) + 2 ==> m'[w] == m[w])
    && (forall w :: end <= w < hi && w != FirstFree(R) + 3 ==> m'[w] == m[w])
  }

  ghost predicate Roomy(bs: seq<Block>) {
    forall i :: 0 <= i < |bs| && !bs[i].used ==> bs[i].size >= 3
  }

  /** Replacing the blocks between L and R by M, with the links around M set, keeps a heap sound. */
  lemma Rebuild(m: seq<int>, m': seq<int>, first: int, L: seq<Block>, M: seq<Block>, R: seq<Block>,
                lo: int, end: int, hi: int)
    requires |m| == |m'| && hi <= |m| && M != []
    requires LeftOk(m, L) && RightOk(m, R) && Roomy(R)
    requires Spread(L, HEAP_HEADER, lo) && HEAP_HEADER <= lo < end && Spread(R, end, hi)
    requires Tiled(L + M + R, HEAP_HEADER, hi) && Coalesced(L + M + R)
    requires ChangedWithin(m, m', L, R, lo, end, hi)
    requires Joined(m', first, L, M, R)
    ensures Inv(m', first, L + M + R, hi)
  {
    LeftFrame(m, m', L, HEAP_HEADER, lo);
    RightFrame(m, m', R, end, hi);
    Splice(m', first, L, M, R, hi);
  }

  /** No word of an allocated payload differs. */
  ghost predicate Untouched(m: seq<int>, m': seq<int>, bs: seq<Block>) {
    && |m| == |m'|
    && forall i, w :: 0 <= i < |bs| && bs[i].used && 0 <= w < |m| && bs[i].Payload(w) ==> m'[w] == m[w]
  }

  lemma UntouchedParts(m: seq<int>, m': seq<int>, L: seq<Block>, R: seq<Block>, lo: int, end: int, hi: int)
    requires |m| == |m'| && hi <= |m| && HEAP_HEADER <= lo < end
    requires Spread(L, HEAP_HEADER, lo) && Spread(R, end, hi)
    requires ChangedWithin(m, m', L, R, lo, end, hi)
    ensures Untouched(m, m', L + R)
  {
    var l := LastFreeIndex(L);
    var r := FirstFreeIndex(R);
    var bs := L + R;
    forall i, w | 0 <= i < |bs| && bs[i].used && 0 <= w < |m| && bs[i].Payload(w)
      ensures m'[w] == m[w]
    {
      if i < |L| {
        assert bs[i] == L[i];
        if 0 <= l { assert L[i].End() <= L[l].addr || L[l].End() <= L[i].addr; }
      } else {
        assert bs[i] == R[i - |L|];
        if r < |R| { assert R[i - |L|].End() <= R[r].addr || R[r].End() <= R[i - |L|].addr; }
      }
    }
  }
}
