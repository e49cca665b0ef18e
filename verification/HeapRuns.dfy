/**
  What allocations and releases do to the set of live allocations, over whole runs: when every release gets the true
  free neighbours, and as heap_free is coded.
*/
module HeapRuns {
  import opened HeapBlocks
  import opened HeapLinks
  import opened HeapSteps
  import opened HeapRelease
  import opened HeapMisfree

  /** The live allocations. */
  ghost function Live(bs: seq<Block>): set<Block> {
    set b | b in bs && b.used
  }

  /** A heap's blocks fill it exactly, and no two free ones are neighbours. */
  ghost predicate Shape(bs: seq<Block>, hi: int) {
    bs != [] && Tiled(bs, HEAP_HEADER, hi) && Coalesced(bs)
  }

  /** Live allocations do not overlap, tags included, and their payloads are 16-byte aligned. */
  lemma LiveDisjoint(bs: seq<Block>, hi: int, a: Block, b: Block)
    requires Shape(bs, hi) && a in Live(bs) && b in Live(bs)
    ensures a == b || a.End() <= b.addr || b.End() <= a.addr
    ensures HEAP_HEADER <= a.addr && a.End() <= hi
    ensures WORD * (a.addr + HEADER) % 16 == 0
  {
    SpreadOf(bs, HEAP_HEADER, hi);
    var i :| 0 <= i < |bs| && bs[i] == a;
    var j :| 0 <= j < |bs| && bs[j] == b;
    TiledAt(bs, HEAP_HEADER, hi, i);
    assert WORD * (a.addr + HEADER) == 16 * (a.addr / 2 + 1);
  }

  lemma LiveParts(L: seq<Block>, M: seq<Block>, R: seq<Block>)
    ensures Live(L + M + R) == Live(L) + Live(M) + Live(R)
  {
  }

  /** An allocation adds exactly the block it returns, which was not live before: of the n words asked for, or two more
      if these would be left over. */
  lemma CarveLive(bs: seq<Block>, i: nat, n: int, hi: int)
    requires Shape(bs, hi) && i < |bs| && !bs[i].used && 1 <= n <= bs[i].size && n % 2 == 1
    ensures var b := Carved(bs[i], n)[0];
      && b.addr == bs[i].addr && (b.size == n || b.size == n + 2 == bs[i].size)
      && Live(Carve(bs, i, n)) == Live(bs) + {b} && b !in Live(bs)
  {
    var b := Carved(bs[i], n)[0];
    LiveParts(bs[..i], Carved(bs[i], n), bs[i + 1..]);
    assert bs == bs[..i] + [bs[i]] + bs[i + 1..];
    LiveParts(bs[..i], [bs[i]], bs[i + 1..]);
    assert Live(Carved(bs[i], n)) == {b};
    assert Live([bs[i]]) == {};
    TiledAt(bs, HEAP_HEADER, hi, i);
    OneAt(bs, hi, i, b);
  }

  /** Only one block has its header at a given address. */
  lemma OneAt(bs: seq<Block>, hi: int, i: nat, b: Block)
    requires Shape(bs, hi) && i < |bs| && b.addr == bs[i].addr
    ensures b in bs ==> b == bs[i]
  {
    SpreadOf(bs, HEAP_HEADER, hi);
    forall j | 0 <= j < |bs| && j != i
      ensures bs[j].addr != bs[i].addr
    {
      assert if j < i then bs[j].End() <= bs[i].addr else bs[i].End() <= bs[j].addr;
    }
  }

  /** A release, given the true free neighbours, removes exactly the block released. */
  lemma ReleaseLive(bs: seq<Block>, i: nat, hi: int)
    requires Shape(bs, hi) && i < |bs| && bs[i].used
    ensures Live(Release(bs, i)) == Live(bs) - {bs[i]}
  {
    var k, l := ReleaseFrom(bs, i), ReleaseTo(bs, i);
    LiveParts(bs[..k], [Merged(bs, k, l)], bs[l..]);
    LiveParts(bs[..k], bs[k..l], bs[l..]);
    assert bs == bs[..k] + bs[k..l] + bs[l..];
    LiveMerged(bs, i);
    assert Live([Merged(bs, k, l)]) == {};
    NotAround(bs, hi, i);
  }

  lemma LiveMerged(bs: seq<Block>, i: nat)
    requires i < |bs| && bs[i].used
    ensures Live(bs[ReleaseFrom(bs, i)..ReleaseTo(bs, i)]) == {bs[i]}
  {
  }

  lemma NotAround(bs: seq<Block>, hi: int, i: nat)
    requires Shape(bs, hi) && i < |bs|
    ensures bs[i] !in bs[..i] && bs[i] !in bs[i + 1..]
    ensures bs[i] !in bs[..ReleaseFrom(bs, i)] && bs[i] !in bs[ReleaseTo(bs, i)..]
  {
    SpreadOf(bs, HEAP_HEADER, hi);
    forall j | 0 <= j < |bs| && j != i
      ensures bs[j] != bs[i]
    {
      assert if j < i then bs[j].End() <= bs[i].addr else bs[i].End() <= bs[j].addr;
    }
  }

  /** Growing changes no live allocation. */
  lemma GrowLive(bs: seq<Block>, p: nat)
    requires bs != []
    ensures Live(Grow(bs, p)) == Live(bs)
  {
  }

  lemma SomethingLive(bs: seq<Block>)
    requires Coalesced(bs) && bs != [] && (|bs| > 1 || bs[0].used)
    ensures Live(bs) != {}
  {
    assert bs[if bs[0].used then 0 else 1] in Live(bs);
  }

  /** A heap with nothing live is one free block that fills it. */
  lemma NothingLive(bs: seq<Block>, hi: int)
    requires Shape(bs, hi) && Live(bs) == {}
    ensures bs == [Block(HEAP_HEADER, hi - HEAP_HEADER - TAGS, false)]
  {
    if |bs| > 1 || bs[0].used { SomethingLive(bs); }
    TiledAt(bs, HEAP_HEADER, hi, 0);
  }

  /** Index of the block whose header is at addr, or |bs|. */
  function Find(bs: seq<Block>, addr: int): (i: nat)
    ensures i <= |bs|
    ensures i < |bs| ==> bs[i].addr == addr
    ensures i == |bs| ==> forall b :: b in bs ==> b.addr != addr
  {
    if bs == [] || bs[0].addr == addr then 0 else 1 + Find(bs[1..], addr)
  }

  /** The blocks after releasing the blocks of `order`, one after the other. */
  function ReleaseAll(bs: seq<Block>, order: seq<Block>): seq<Block>
    decreases order
  {
    if order == [] then bs
    else
      var i := Find(bs, order[0].addr);
      if i == |bs| then bs else ReleaseAll(Release(bs, i), order[1..])
  }

  lemma FindLive(bs: seq<Block>, hi: int, b: Block)
    requires Shape(bs, hi) && b in Live(bs)
    ensures Find(bs, b.addr) < |bs| && bs[Find(bs, b.addr)] == b
  {
    SpreadOf(bs, HEAP_HEADER, hi);
    var j :| 0 <= j < |bs| && bs[j] == b;
    var i := Find(bs, b.addr);
    assert i < j || j < i || i == j;
  }

  /** Releasing all live allocations, in any order, given the true free neighbours, leaves one free block that fills
      the heap. */
  lemma {:induction false} ReleaseAllLeavesOne(bs: seq<Block>, hi: int, order: seq<Block>)
    requires Shape(bs, hi)
    requires forall i, j :: 0 <= i < j < |order| ==> order[i] != order[j]
    requires Live(bs) == set b | b in order
    ensures ReleaseAll(bs, order) == [Block(HEAP_HEADER, hi - HEAP_HEADER - TAGS, false)]
    decreases order
  {
    if order == [] {
      NothingLive(bs, hi);
    } else {
      assert order[0] in Live(bs);
      FindLive(bs, hi, order[0]);
      var i := Find(bs, order[0].addr);
      ReleaseLive(bs, i, hi);
      ReleaseShape(bs, i, HEAP_HEADER, hi);
      assert forall b :: b in order <==> b == order[0] || b in order[1..];
      ReleaseAllLeavesOne(Release(bs, i), hi, order[1..]);
    }
  }

  // ----- Whole runs -----

  /** A heap's blocks, the pages it has and the pages it may have. */
  datatype State = State(bs: seq<Block>, pages: nat, maxpages: nat)

  /** A request for n words, or the release of the block at addr. */
  datatype Op = Request(n: nat) | Give(addr: int)

  ghost predicate Sound(s: State) {
    0 < s.pages <= s.maxpages && Shape(s.bs, s.pages * PAGE_WORDS)
  }

  /** One call, given the true free neighbours.  Requests that do not fit, and releases of what is not allocated,
      change nothing. */
  ghost function Step(s: State, op: Op): State
    requires Sound(s)
  {
    match op
    case Request(n) =>
      if n % 2 == 0 || !Fits(s.bs, s.pages, s.maxpages, n) then s
      else
        var fit := FirstFit(s.bs, n) < |s.bs|;
        var i := SiteIndex(s.bs, s.pages, s.maxpages, n);
        State(Carve(Site(s.bs, s.pages, s.maxpages, n), i, n),
              s.pages + if fit then 0 else GrowthPages(s.pages, s.maxpages, n), s.maxpages)
    case Give(addr) =>
      var i := Find(s.bs, addr);
      if i < |s.bs| && s.bs[i].used then s.(bs := Release(s.bs, i)) else s
  }

  /** A request finds a free block of at least n words, in a heap that is still in shape. */
  lemma SiteSound(s: State, n: nat)
    requires Sound(s) && n % 2 == 1 && Fits(s.bs, s.pages, s.maxpages, n)
    ensures var bs, i := Site(s.bs, s.pages, s.maxpages, n), SiteIndex(s.bs, s.pages, s.maxpages, n);
      var p := if FirstFit(s.bs, n) < |s.bs| then 0 else GrowthPages(s.pages, s.maxpages, n);
      && s.pages + p <= s.maxpages && Shape(bs, (s.pages + p) * PAGE_WORDS)
      && 0 <= i < |bs| && !bs[i].used && 1 <= n <= bs[i].size
      && Live(bs) == Live(s.bs)
  {
    if FirstFit(s.bs, n) == |s.bs| {
      var p := GrowthPages(s.pages, s.maxpages, n);
      GrowShape(s.bs, p, HEAP_HEADER, s.pages * PAGE_WORDS);
      GrowLive(s.bs, p);
      SpreadOf(s.bs, HEAP_HEADER, s.pages * PAGE_WORDS);
      GrowBigEnough(s.bs, p, n);
    }
  }

  /** What one call keeps: the heap's shape, and every allocation but the one it is about. */
  ghost predicate KeepsOthers(s: State, op: Op, s': State) {
    && Sound(s') && s.pages <= s'.pages && s'.maxpages == s.maxpages
    && forall b :: b in Live(s.bs) && op != Give(b.addr) ==> b in Live(s'.bs)
  }

  lemma RequestSound(s: State, n: nat)
    requires Sound(s)
    ensures KeepsOthers(s, Request(n), Step(s, Request(n)))
  {
    if n % 2 == 1 && Fits(s.bs, s.pages, s.maxpages, n) {
      SiteSound(s, n);
      var bs, i := Site(s.bs, s.pages, s.maxpages, n), SiteIndex(s.bs, s.pages, s.maxpages, n);
      var s' := Step(s, Request(n));
      assert Shape(s'.bs, s'.pages * PAGE_WORDS) by { CarveShape(bs, i, n, HEAP_HEADER, s'.pages * PAGE_WORDS); }
      CarveLive(bs, i, n, s'.pages * PAGE_WORDS);
    }
  }

  lemma GiveSound(s: State, addr: int)
    requires Sound(s)
    ensures KeepsOthers(s, Give(addr), Step(s, Give(addr)))
  {
    var i := Find(s.bs, addr);
    if i < |s.bs| && s.bs[i].used {
      ReleaseShape(s.bs, i, HEAP_HEADER, s.pages * PAGE_WORDS);
      ReleaseLive(s.bs, i, s.pages * PAGE_WORDS);
    }
  }

  /** One call, given the true free neighbours, keeps the heap in shape and every other allocation where it is. */
  lemma StepSound(s: State, op: Op)
    requires Sound(s)
    ensures KeepsOthers(s, op, Step(s, op))
  {
    match op
    case Request(n) => RequestSound(s, n);
    case Give(addr) => GiveSound(s, addr);
  }

  ghost function Run(s: State, ops: seq<Op>): State
    requires Sound(s)
    decreases ops
  {
    if ops == [] then s else (StepSound(s, ops[0]); Run(Step(s, ops[0]), ops[1..]))
  }

  /**
    After any run in which every release gets the true free neighbours the blocks still fill the
    heap exactly, and an allocation that was not given back is still there, at the same place and
    of the same size.
  */
  lemma {:induction false} RunsKeepAllocations(s: State, ops: seq<Op>, b: Block)
    requires Sound(s) && b in Live(s.bs) && Give(b.addr) !in ops
    ensures Sound(Run(s, ops)) && b in Live(Run(s, ops).bs)
    ensures s.pages <= Run(s, ops).pages <= s.maxpages
    decreases ops
  {
    if ops != [] {
      StepSound(s, ops[0]);
      RunsKeepAllocations(Step(s, ops[0]), ops[1..], b);
    }
  }

  // ----- Runs of heap_alloc and heap_free as they are coded -----

  /** A call that the heap's user may make: a rounded size, or what is allocated. */
  ghost predicate Proper(s: State, op: Op) {
    match op
    case Request(n) => n % 2 == 1
    case Give(addr) => Find(s.bs, addr) < |s.bs| && s.bs[Find(s.bs, addr)].used
  }

  /** The size of the free block that a request is served from. */
  ghost function ServedFrom(s: State, n: nat): int
    requires Sound(s) && Fits(s.bs, s.pages, s.maxpages, n)
  {
    Site(s.bs, s.pages, s.maxpages, n)[SiteIndex(s.bs, s.pages, s.maxpages, n)].size
  }

  /** No split leaves 32 bytes, and a free is of the heap's first block, which is not stranded. */
  ghost predicate Good(s: State, op: Op)
    requires Sound(s)
  {
    match op
    case Request(n) => Fits(s.bs, s.pages, s.maxpages, n) ==> ServedFrom(s, n) != n + 1 + TAGS
    case Give(addr) => addr == HEAP_HEADER && !Stranded(s.bs, 0)
  }

  ghost predicate GoodRun(s: State, ops: seq<Op>)
    requires Sound(s)
    decreases ops
  {
    ops == [] || (Good(s, ops[0]) && (StepSound(s, ops[0]); GoodRun(Step(s, ops[0]), ops[1..])))
  }

  /** A heap as it is in memory. */
  datatype Now = Now(mem: seq<int>, first: int, state: State)

  ghost predicate SoundNow(h: Now) {
    && Sound(h.state) && |h.mem| == h.state.maxpages * PAGE_WORDS
    && Inv(h.mem, h.first, h.state.bs, h.state.pages * PAGE_WORDS) && h.mem[HEAP_HEADER - 1] >= 0
  }

  ghost predicate SamePayload(m: seq<int>, m': seq<int>, b: Block) {
    |m| == |m'| && forall w :: 0 <= w < |m| && b.Payload(w) ==> m'[w] == m[w]
  }

  /** The blocks after a call as it is coded: of all frees only that of the first block releases anything. */
  ghost function After(s: State, op: Op): State
    requires Sound(s)
  {
    if op.Give? && op.addr != HEAP_HEADER then s else Step(s, op)
  }

  /** No split leaves 32 bytes, and a free is of the first block, not stranded, or only leaks its block and spares
      all others. */
  ghost predicate Safe(h: Now, op: Op)
    requires SoundNow(h)
  {
    match op
    case Request(n) => Good(h.state, op)
    case Give(addr) =>
      var bs, i, hi := h.state.bs, Find(h.state.bs, addr), h.state.pages * PAGE_WORDS;
      || (i == 0 && !Stranded(bs, 0))
      || (CanMisfree(h.mem, bs, i) && OnlyLeaks(h.mem, bs, i, hi) && Spares(h.mem, bs, i, hi))
  }

  /** All stores of a call are inside the heap. */
  ghost predicate StoresInside(h: Now, op: Op) {
    op.Give? && CanMisfree(h.mem, h.state.bs, Find(h.state.bs, op.addr)) ==>
      Landing(h.mem, h.state.bs, Find(h.state.bs, op.addr)) < h.state.pages * PAGE_WORDS
  }

  /** A call left a sound heap, and the words of every allocated payload but the given one as they were. */
  ghost predicate Stays(h: Now, op: Op, h': Now) {
    SoundNow(h') && forall b :: b in Live(h.state.bs) && op != Give(b.addr) ==> SamePayload(h.mem, h'.mem, b)
  }

  /** A call did what it is for: memory is sound for the blocks that the call should give, and the words of every other
      allocated payload are as they were. */
  ghost predicate Does(h: Now, op: Op, h': Now, ok: bool)
    requires Sound(h.state)
  {
    && ok && SoundNow(Now(h'.mem, h'.first, Step(h.state, op)))
    && forall b :: b in Live(h.state.bs) && op != Give(b.addr) ==> SamePayload(h.mem, h'.mem, b)
  }

  /** What each call guarantees, from a sound heap: it does what it is for exactly when it is good, and leaves a
      sound heap with all other payloads exactly when it is safe. */
  ghost predicate Made(h: Now, op: Op, h': Now, ok: bool) {
    SoundNow(h) && Proper(h.state, op) ==>
      && h'.state == After(h.state, op)
      && (Does(h, op, h', ok) <==> Good(h.state, op))
      && (Stays(h, op, h') <==> Safe(h, op))
      && (ok <==> StoresInside(h, op))
  }

  /** A sequence of calls, with the heap before and after each. */
  ghost predicate IsTrace(hs: seq<Now>, ops: seq<Op>, oks: seq<bool>) {
    && |hs| == |ops| + 1 && |oks| == |ops| && SoundNow(hs[0])
    && (forall i :: 0 <= i < |ops| ==> Made(hs[i], ops[i], hs[i + 1], oks[i]))
    && (forall i :: 0 <= i < |ops| && SoundNow(hs[i]) ==> Proper(hs[i].state, ops[i]))
  }

  ghost predicate AllDo(hs: seq<Now>, ops: seq<Op>, oks: seq<bool>)
    requires |hs| == |ops| + 1 && |oks| == |ops|
  {
    forall i :: 0 <= i < |ops| ==> Sound(hs[i].state) && Does(hs[i], ops[i], hs[i + 1], oks[i])
  }

  /** After a good call the rest of a trace is a trace. */
  lemma TraceRest(hs: seq<Now>, ops: seq<Op>, oks: seq<bool>)
    requires IsTrace(hs, ops, oks) && ops != [] && Good(hs[0].state, ops[0])
    ensures Does(hs[0], ops[0], hs[1], oks[0]) && hs[1].state == Step(hs[0].state, ops[0])
    ensures IsTrace(hs[1..], ops[1..], oks[1..])
  {
    assert Made(hs[0], ops[0], hs[1], oks[0]);
    var hs', ops', oks' := hs[1..], ops[1..], oks[1..];
    forall i | 0 <= i < |ops'|
      ensures Made(hs'[i], ops'[i], hs'[i + 1], oks'[i]) && (SoundNow(hs'[i]) ==> Proper(hs'[i].state, ops'[i]))
    {
      assert Made(hs[i + 1], ops[i + 1], hs[i + 2], oks[i + 1]);
    }
  }

  lemma DoFromSecond(hs: seq<Now>, ops: seq<Op>, oks: seq<bool>)
    requires |hs| == |ops| + 1 && |oks| == |ops| > 0
    requires Sound(hs[0].state) && Does(hs[0], ops[0], hs[1], oks[0])
    ensures AllDo(hs, ops, oks) <==> AllDo(hs[1..], ops[1..], oks[1..])
  {
    if AllDo(hs[1..], ops[1..], oks[1..]) {
      forall i | 0 <= i < |ops|
        ensures Sound(hs[i].state) && Does(hs[i], ops[i], hs[i + 1], oks[i])
      {
        if i > 0 { assert Does(hs[1..][i - 1], ops[1..][i - 1], hs[1..][i], oks[1..][i - 1]); }
      }
    }
    if AllDo(hs, ops, oks) {
      forall i | 0 <= i < |ops| - 1
        ensures Sound(hs[1..][i].state) && Does(hs[1..][i], ops[1..][i], hs[1..][i + 1], oks[1..][i])
      {
        assert Does(hs[i + 1], ops[i + 1], hs[i + 2], oks[i + 1]);
      }
    }
  }

  /** Over any run of heap_alloc and heap_free as coded, every call keeps the heap sound, does what it is for, and
      keeps the words of all other payloads, if and only if no split leaves 32 bytes and every free is of the heap's
      first, unstranded block. */
  lemma {:induction false} RunAsCoded(hs: seq<Now>, ops: seq<Op>, oks: seq<bool>)
    requires IsTrace(hs, ops, oks)
    ensures AllDo(hs, ops, oks) <==> GoodRun(hs[0].state, ops)
    ensures GoodRun(hs[0].state, ops) ==> SoundNow(hs[|ops|]) && hs[|ops|].state == Run(hs[0].state, ops)
    decreases ops
  {
    if ops != [] {
      assert Made(hs[0], ops[0], hs[1], oks[0]);
      if Good(hs[0].state, ops[0]) {
        TraceRest(hs, ops, oks);
        RunAsCoded(hs[1..], ops[1..], oks[1..]);
        DoFromSecond(hs, ops, oks);
      }
    }
  }

  ghost predicate AllStay(hs: seq<Now>, ops: seq<Op>)
    requires |hs| == |ops| + 1
  {
    forall i :: 0 <= i < |ops| ==> SoundNow(hs[i]) && Stays(hs[i], ops[i], hs[i + 1])
  }

  /** As long as the heap is sound, the next call is safe. */
  ghost predicate SafeRun(hs: seq<Now>, ops: seq<Op>)
    requires |hs| == |ops| + 1
  {
    forall i :: 0 <= i < |ops| && SoundNow(hs[i]) ==> Safe(hs[i], ops[i])
  }

  lemma AfterSound(s: State, op: Op)
    requires Sound(s)
    ensures Sound(After(s, op)) && (forall b :: b in Live(s.bs) && op != Give(b.addr) ==> b in Live(After(s, op).bs))
  {
    StepSound(s, op);
  }

  /** The blocks after a run: the first block's frees release it, all others only leak. */
  ghost function RunAfter(s: State, ops: seq<Op>): (s': State)
    requires Sound(s)
    ensures Sound(s')
  {
    if ops == [] then s
    else
      var before := RunAfter(s, ops[..|ops| - 1]);
      AfterSound(before, ops[|ops| - 1]);
      After(before, ops[|ops| - 1])
  }

  /** After the first k calls of a safe run the heap is sound for the blocks that the calls made so far should leave. */
  lemma {:induction false} SafeSoFar(hs: seq<Now>, ops: seq<Op>, oks: seq<bool>, k: nat)
    requires IsTrace(hs, ops, oks) && SafeRun(hs, ops) && k <= |ops|
    ensures SoundNow(hs[k]) && hs[k].state == RunAfter(hs[0].state, ops[..k])
  {
    if k > 0 {
      SafeSoFar(hs, ops, oks, k - 1);
      assert Made(hs[k - 1], ops[k - 1], hs[k - 1 + 1], oks[k - 1]) && Safe(hs[k - 1], ops[k - 1]);
      assert ops[..k][..k - 1] == ops[..k - 1];
    }
  }

  /** Over any run of heap_alloc and heap_free as coded, every call keeps the heap sound and the words of all other
      payloads if and only if every call is safe: no split leaves 32 bytes, and every free is of the first, unstranded
      block, or only leaks its block and spares the others.  The stores of a call are then all inside the heap exactly
      when its misplaced footer is. */
  lemma SafeRunAsCoded(hs: seq<Now>, ops: seq<Op>, oks: seq<bool>)
    requires IsTrace(hs, ops, oks)
    ensures AllStay(hs, ops) <==> SafeRun(hs, ops)
    ensures SafeRun(hs, ops) ==> SoundNow(hs[|ops|]) && hs[|ops|].state == RunAfter(hs[0].state, ops)
    ensures SafeRun(hs, ops) ==> forall i :: 0 <= i < |ops| ==> (oks[i] <==> StoresInside(hs[i], ops[i]))
  {
    if SafeRun(hs, ops) {
      forall i | 0 <= i < |ops|
        ensures SoundNow(hs[i]) && Stays(hs[i], ops[i], hs[i + 1]) && (oks[i] <==> StoresInside(hs[i], ops[i]))
      {
        SafeSoFar(hs, ops, oks, i);
        assert Made(hs[i], ops[i], hs[i + 1], oks[i]);
      }
      SafeSoFar(hs, ops, oks, |ops|);
      assert ops[..|ops|] == ops;
    }
    if AllStay(hs, ops) {
      forall i | 0 <= i < |ops|
        ensures Safe(hs[i], ops[i])
      {
        assert Made(hs[i], ops[i], hs[i + 1], oks[i]) && Stays(hs[i], ops[i], hs[i + 1]);
      }
    }
  }

  /** Over a safe run an allocation that is not given back stays where it is, and so do its payload words. */
  lemma {:induction false} RunKeepsPayload(hs: seq<Now>, ops: seq<Op>, oks: seq<bool>, b: Block, k: nat)
    requires IsTrace(hs, ops, oks) && SafeRun(hs, ops) && k <= |ops|
    requires b in Live(hs[0].state.bs) && Give(b.addr) !in ops
    ensures b in Live(hs[k].state.bs) && SamePayload(hs[0].mem, hs[k].mem, b)
  {
    if k > 0 {
      RunKeepsPayload(hs, ops, oks, b, k - 1);
      SafeSoFar(hs, ops, oks, k - 1);
      AfterSound(hs[k - 1].state, ops[k - 1]);
      assert Made(hs[k - 1], ops[k - 1], hs[k - 1 + 1], oks[k - 1]) && Safe(hs[k - 1], ops[k - 1]);
      assert ops[k - 1] != Give(b.addr);
    }
  }

  /** A call that does what it is for is safe. */
  lemma GoodIsSafe(h: Now, op: Op)
    requires SoundNow(h) && Proper(h.state, op) && Good(h.state, op)
    ensures Safe(h, op) && After(h.state, op) == Step(h.state, op)
  {
    if op.Give? {
      var b := h.state.bs[Find(h.state.bs, op.addr)];
      SpreadOf(h.state.bs, HEAP_HEADER, h.state.pages * PAGE_WORDS);
    }
  }

  /** So a run in which every call does what it is for is a safe run, and RunKeepsPayload covers it. */
  lemma GoodRunIsSafe(hs: seq<Now>, ops: seq<Op>, oks: seq<bool>)
    requires IsTrace(hs, ops, oks) && GoodRun(hs[0].state, ops)
    ensures SafeRun(hs, ops)
  {
    RunAsCoded(hs, ops, oks);
    forall i | 0 <= i < |ops| && SoundNow(hs[i])
      ensures Safe(hs[i], ops[i])
    {
      assert Made(hs[i], ops[i], hs[i + 1], oks[i]) && Does(hs[i], ops[i], hs[i + 1], oks[i]);
      GoodIsSafe(hs[i], ops[i]);
    }
  }

  /** A block is the first one if its header is where the first one's is. */
  lemma FirstByAddress(bs: seq<Block>, hi: int, b: Block)
    requires Shape(bs, hi) && b in bs
    ensures b.addr == HEAP_HEADER <==> b == bs[0]
  {
    if b.addr == HEAP_HEADER { OneAt(bs, hi, 0, b); }
  }

  function Gives(order: seq<Block>): (ops: seq<Op>)
    ensures |ops| == |order|
  {
    seq(|order|, i requires 0 <= i < |order| => Give(order[i].addr))
  }

  /** Freeing all live allocations as coded releases every one of them if and only if at most one is live, and it is
      the heap's first block and not stranded. */
  lemma FreeAllAsCoded(s: State, order: seq<Block>)
    requires Sound(s) && (forall i, j :: 0 <= i < j < |order| ==> order[i] != order[j])
    requires Live(s.bs) == set b | b in order
    ensures GoodRun(s, Gives(order)) <==> order == [] || (order == [s.bs[0]] && !Stranded(s.bs, 0))
  {
    if order != [] {
      var ops, hi := Gives(order), s.pages * PAGE_WORDS;
      assert order[0] in Live(s.bs);
      FirstByAddress(s.bs, hi, order[0]);
      StepSound(s, ops[0]);
      if |order| > 1 && Good(s, ops[0]) {
        assert order[1] in Live(s.bs);
        FirstByAddress(s.bs, hi, order[1]);
        assert ops[1..][0] == Give(order[1].addr);
      }
    }
  }
}
