/** The page frame database: its list of available frames, from page_init through pfalloc and pffree. */
module Frames {
  import opened Common
  import opened PMapRegions
  import opened PMapCollapse
  import opened PMapNormal

  const PAGE_SIZE_LARGE := 0x20_0000
  const INVALID := 0xFFFF_FFFF      // PFN_INVALID
  const COUNT_LIMIT := 0x1_0000_0000
  const REF_LIMIT := 0x1_0000

  const UNUSED := 0                 // PFTYPE_RESERVED
  const AVAILABLE := 1
  const ALLOCATED := 2

  datatype Frame = Frame(prev: nat, next: nat, refcount: nat, typ: nat)

  // ----- The list -----

  /** Record list[i] is available and linked to its neighbours on the list. */
  ghost predicate ListedAt(pf: seq<Frame>, list: seq<nat>, i: int)
    requires 0 <= i < |list|
  {
    && list[i] < |pf|
    && pf[list[i]].typ == AVAILABLE
    && pf[list[i]].next == (if i + 1 < |list| then list[i + 1] else INVALID)
    && pf[list[i]].prev == (if i > 0 then list[i - 1] else INVALID)
  }

  ghost predicate Distinct(list: seq<nat>) {
    forall i, j :: 0 <= i < j < |list| ==> list[i] != list[j]
  }

  /** The doubly linked list through the records holds exactly the available frames. */
  ghost predicate Listed(pf: seq<Frame>, list: seq<nat>) {
    && (forall i :: 0 <= i < |list| ==> ListedAt(pf, list, i))
    && (forall p :: 0 <= p < |pf| && pf[p].typ == AVAILABLE ==> p in list)
    && Distinct(list)
  }

  function First(list: seq<nat>): nat { if list == [] then INVALID else list[0] }

  function Last(list: seq<nat>): nat { if list == [] then INVALID else list[|list| - 1] }

  // ----- What allocating and freeing do to the pool of frames -----

  datatype Pool = Pool(list: seq<nat>, taken: set<nat>, avail: nat)

  datatype Op = Alloc | Free(pfn: nat)

  /** Where pfalloc and pffree stay inside the database: with a non-empty list, and for freeing an allocated frame. */
  predicate CanStep(pool: Pool, op: Op) {
    pool.list != [] && pool.avail != 0 && (op.Free? ==> op.pfn in pool.taken)
  }

  function PoolStep(pool: Pool, op: Op): Pool
    requires CanStep(pool, op)
  {
    match op
    case Alloc => Pool(pool.list[1..], pool.taken + {pool.list[0]}, pool.avail)
    case Free(pfn) => Pool([pfn] + pool.list, pool.taken - {pfn}, (pool.avail + 1) % COUNT_LIMIT)
  }

  predicate CanRun(pool: Pool, ops: seq<Op>)
    decreases ops
  {
    ops == [] || (CanStep(pool, ops[0]) && CanRun(PoolStep(pool, ops[0]), ops[1..]))
  }

  function Run(pool: Pool, ops: seq<Op>): Pool
    requires CanRun(pool, ops)
    decreases ops
  {
    if ops == [] then pool else Run(PoolStep(pool, ops[0]), ops[1..])
  }

  function Elements(list: seq<nat>): set<nat> { set p | p in list }

  /** No frame is both available and allocated, and the list has no frame twice. */
  ghost predicate Separate(pool: Pool) {
    Distinct(pool.list) && Elements(pool.list) !! pool.taken
  }

  lemma StepConserves(pool: Pool, op: Op)
    requires Separate(pool) && CanStep(pool, op)
    ensures var next := PoolStep(pool, op);
      Separate(next) && Elements(next.list) + next.taken == Elements(pool.list) + pool.taken
  {
  }

  /** Over any run of allocations and frees no frame appears or is lost, and none is available while allocated. */
  lemma {:induction false} RunConserves(pool: Pool, ops: seq<Op>)
    requires Separate(pool) && CanRun(pool, ops)
    ensures var end := Run(pool, ops);
      Separate(end) && Elements(end.list) + end.taken == Elements(pool.list) + pool.taken
    decreases ops
  {
    if ops != [] {
      StepConserves(pool, ops[0]);
      RunConserves(PoolStep(pool, ops[0]), ops[1..]);
    }
  }

  function Frees(ops: seq<Op>): nat {
    if ops == [] then 0 else (if ops[0].Free? then 1 else 0) + Frees(ops[1..])
  }

  /** The counter that pfalloc checks counts frees only: after any run it is the initial count plus the frees,
      modulo 2^32. */
  lemma {:induction false} CounterDrifts(pool: Pool, ops: seq<Op>)
    requires CanRun(pool, ops) && pool.avail < COUNT_LIMIT
    ensures Run(pool, ops).avail == (pool.avail + Frees(ops)) % COUNT_LIMIT
    ensures |Run(pool, ops).list| == |pool.list| + 2 * Frees(ops) - |ops|
    decreases ops
  {
    if ops != [] {
      CounterDrifts(PoolStep(pool, ops[0]), ops[1..]);
    }
  }

  /** So the check does not stop an allocation from an empty list: allocating every frame leaves the counter as it
      was. */
  lemma {:induction false} CheckMissesEmpty(pool: Pool)
    requires pool.avail != 0
    ensures var ops := seq(|pool.list|, _ => Alloc);
      CanRun(pool, ops) && Run(pool, ops).list == [] && Run(pool, ops).avail == pool.avail
    decreases pool.list
  {
    var ops := seq(|pool.list|, _ => Alloc);
    if pool.list != [] {
      var next := PoolStep(pool, Alloc);
      assert ops[0] == Alloc && ops[1..] == seq(|next.list|, _ => Alloc);
      CheckMissesEmpty(next);
    }
  }

  // ----- The frames that page_init lists -----

  function Range(lo: nat, hi: nat): (r: seq<nat>)
    ensures |r| == (if hi < lo then 0 else hi - lo) && forall i :: 0 <= i < |r| ==> r[i] == lo + i
  {
    seq(if hi < lo then 0 else hi - lo, i requires i >= 0 => lo + i)
  }

  /** pfn0 and pfnN: the frames from the one a region starts in, up to and without the one it ends in. */
  function FrameFrom(r: Region): nat { r.addr / PAGE_SIZE }

  function FrameTo(r: Region): nat { r.End() / PAGE_SIZE }

  function FramesOf(r: Region): seq<nat> {
    if r.typ == USABLE then Range(FrameFrom(r), FrameTo(r)) else []
  }

  /** The frames of the usable ones among the first n regions. */
  function UsableFrames(s: seq<Region>, n: nat): seq<nat>
    requires n <= |s|
  {
    if n == 0 then [] else UsableFrames(s, n - 1) + FramesOf(s[n - 1])
  }

  /** A usable region reaches from one frame into a later one, so that its chain is not empty. */
  ghost predicate Spans(s: seq<Region>) {
    forall i :: 0 <= i < |s| && s[i].typ == USABLE ==> FrameFrom(s[i]) < FrameTo(s[i])
  }

  ghost predicate Ascending(list: seq<nat>) {
    forall i, j :: 0 <= i < j < |list| ==> list[i] < list[j]
  }

  ghost predicate Below(list: seq<nat>, bound: nat) {
    forall i :: 0 <= i < |list| ==> list[i] < bound
  }

  lemma FrameOrder(a: nat, b: nat)
    requires a <= b
    ensures a / PAGE_SIZE <= b / PAGE_SIZE
  {
  }

  /** The listed frames ascend, even if regions start or end in the middle of a frame. */
  lemma {:induction false} FramesAscend(s: seq<Region>, n: nat)
    requires Canonical(s) && n <= |s|
    ensures var list := UsableFrames(s, n); Ascending(list) && Below(list, if n == 0 then 0 else FrameTo(s[n - 1]))
  {
    if n > 0 {
      FramesAscend(s, n - 1);
      FrameOrder(s[n - 1].addr, s[n - 1].End());
      assert n > 1 ==> s[n - 2].End() == s[n - 1].addr;
    }
  }

  /** The frames of usable regions are in the database. */
  ghost predicate InDatabase(s: seq<Region>, count: nat) {
    forall i :: 0 <= i < |s| && s[i].typ == USABLE ==> FrameTo(s[i]) <= count
  }

  /** The frames of the next region come after those listed so far. */
  lemma NextFrames(s: seq<Region>, r: nat, count: nat)
    requires Canonical(s) && Spans(s) && InDatabase(s, count) && r < |s|
    ensures s[r].typ != USABLE ==> UsableFrames(s, r + 1) == UsableFrames(s, r)
    ensures s[r].typ == USABLE ==>
      && FrameFrom(s[r]) < FrameTo(s[r]) <= count && Below(UsableFrames(s, r), FrameFrom(s[r]))
      && UsableFrames(s, r + 1) == UsableFrames(s, r) + Range(FrameFrom(s[r]), FrameTo(s[r]))
  {
    FramesAscend(s, r);
    assert r > 0 ==> s[r - 1].End() == s[r].addr;
  }

  lemma {:induction false} FrameListed(s: seq<Region>, n: nat, p: nat)
    requires n <= |s|
    ensures p in UsableFrames(s, n) <==>
      exists i :: 0 <= i < n && s[i].typ == USABLE && FrameFrom(s[i]) <= p < FrameTo(s[i])
  {
    if n > 0 {
      FrameListed(s, n - 1, p);
      var r := s[n - 1];
      if r.typ == USABLE && FrameFrom(r) <= p < FrameTo(r) {
        assert FramesOf(r)[p - FrameFrom(r)] == p;
      }
    }
  }

  /** The last address of a frame. */
  function LastByte(p: nat): nat { p * PAGE_SIZE + PAGE_SIZE - 1 }

  lemma FrameInside(r: Region, p: nat)
    ensures r.Covers(LastByte(p)) <==> FrameFrom(r) <= p < FrameTo(r)
  {
  }

  /** A frame is listed if and only if the memory map says that its last byte is usable, wherever regions start and
      end. */
  lemma ListedIsUsable(s: seq<Region>, p: nat)
    requires Canonical(s)
    ensures p in UsableFrames(s, |s|) <==> TypeAt(s, LastByte(p)) == USABLE
  {
    var x := LastByte(p);
    FrameListed(s, |s|, p);
    forall i | 0 <= i < |s|
      ensures s[i].Covers(x) ==> TypeAt(s, x) == s[i].typ
      ensures s[i].Covers(x) <==> FrameFrom(s[i]) <= p < FrameTo(s[i])
    {
      if s[i].Covers(x) { TypeAtCovered(s, i, x); }
      FrameInside(s[i], p);
    }
    TypeAtLeast(s, x);
  }

  ghost predicate Aligned(r: Region) { r.addr % PAGE_SIZE == 0 && r.End() % PAGE_SIZE == 0 }

  ghost predicate AllAligned(s: seq<Region>) {
    forall i :: 0 <= i < |s| ==> Aligned(s[i])
  }

  lemma AlignedSpans(s: seq<Region>)
    requires NonEmpty(s) && AllAligned(s)
    ensures Spans(s)
  {
    forall i | 0 <= i < |s|
      ensures FrameFrom(s[i]) < FrameTo(s[i])
    {
      AlignedApart(s[i].addr, s[i].End());
    }
  }

  lemma AlignedApart(a: nat, b: nat)
    requires a < b && a % PAGE_SIZE == 0 && b % PAGE_SIZE == 0
    ensures a / PAGE_SIZE < b / PAGE_SIZE
  {
  }

  /** If regions are made of whole frames, all bytes of a frame are of one type. */
  lemma WholeFrames(s: seq<Region>, x: nat)
    requires Canonical(s) && AllAligned(s)
    ensures TypeAt(s, x) == TypeAt(s, LastByte(x / PAGE_SIZE))
  {
    var y := LastByte(x / PAGE_SIZE);
    TypeAtLeast(s, x);
    TypeAtLeast(s, y);
    forall i | 0 <= i < |s|
      ensures s[i].Covers(x) <==> s[i].Covers(y)
      ensures s[i].Covers(x) ==> TypeAt(s, x) == s[i].typ == TypeAt(s, y)
    {
      SameFrame(s[i], x);
      if s[i].Covers(x) {
        TypeAtCovered(s, i, x);
        TypeAtCovered(s, i, y);
      }
    }
  }

  lemma SameFrame(r: Region, x: nat)
    requires Aligned(r)
    ensures r.Covers(x) <==> r.Covers(LastByte(x / PAGE_SIZE))
  {
  }

  class FrameDb {
    const pf: array<Frame>
    var avail: nat
    var head: nat
    var tail: nat
    ghost var list: seq<nat>

    constructor (count: nat)
      requires count < INVALID
      ensures fresh(pf) && pf.Length == count
    {
      pf := new Frame[count](_ => Frame(0, 0, 0, UNUSED));
    }

    ghost predicate Valid()
      reads this, pf
    {
      pf.Length < INVALID && Listed(pf[..], list) && head == First(list)
    }

    ghost function View(): Pool
      reads this, pf
    {
      Pool(list, (set p: nat | p < pf.Length && pf[p].typ == ALLOCATED), avail)
    }

    ghost predicate NoneTaken()
      reads this, pf
    {
      forall p :: 0 <= p < pf.Length ==> pf[p].typ == AVAILABLE || pf[p].typ == UNUSED
    }

    /** pfalloc: takes the first frame off the list; fails if the counter is 0. */
    method PfAlloc() returns (ok: bool, p: nat)
      requires Valid() && (avail != 0 ==> list != [])
      modifies this`head, this`list, pf
      ensures Valid() && (ok <==> old(avail) != 0)
      ensures !ok ==> unchanged(this) && unchanged(pf)
      ensures ok ==> View() == PoolStep(old(View()), Alloc) && p == old(list[0]) && pf[p].refcount == 1
      ensures ok ==> forall q | 0 <= q < pf.Length && q != p ::
        pf[q].typ == old(pf[q].typ) && pf[q].refcount == old(pf[q].refcount)
    {
      if avail == 0 { return false, 0; }
      ghost var was, l := pf[..], list;
      p := head;
      assert ListedAt(was, l, 0);
      assert |l| > 1 ==> ListedAt(was, l, 1);
      head := pf[head].next;
      if head != INVALID { pf[head] := pf[head].(prev := INVALID); }
      pf[p] := Frame(0, 0, 1, ALLOCATED);
      list := list[1..];
      ok := true;
      Unlisted(was, pf[..], l);
      assert View().taken == old(View().taken) + {p};
    }

    /** pffree: puts an allocated frame at the front of the list. */
    method PfFree(p: nat) returns (ok: bool)
      requires Valid() && p < pf.Length && list != []
      modifies this`head, this`list, this`avail, pf
      ensures Valid() && (ok <==> old(pf[p].typ) == ALLOCATED)
      ensures !ok ==> unchanged(this) && unchanged(pf)
      ensures ok && old(avail) != 0 ==> View() == PoolStep(old(View()), Free(p))
      ensures ok ==> list == [p] + old(list) && avail == (old(avail) + 1) % COUNT_LIMIT
      ensures ok ==> View().taken == old(View().taken) - {p}
      ensures ok ==> forall q | 0 <= q < pf.Length && q != p ::
        pf[q].typ == old(pf[q].typ) && pf[q].refcount == old(pf[q].refcount)
    {
      if pf[p].typ != ALLOCATED { return false; }
      ghost var was, l := pf[..], list;
      assert ListedAt(was, l, 0);
      pf[p] := Frame(INVALID, head, 0, AVAILABLE);
      pf[head] := pf[head].(prev := p);
      head := p;
      avail := (avail + 1) % COUNT_LIMIT;
      list := [p] + list;
      ok := true;
      Relisted(was, pf[..], l, p);
      assert View().taken == old(View().taken) - {p};
    }

    /** pgfree: drops a reference, and frees the frame with the last one. */
    method PgFree(p: nat) returns (ok: bool)
      requires Valid() && p < pf.Length && list != [] && pf[p].refcount < REF_LIMIT
      modifies this`head, this`list, this`avail, pf
      ensures old(pf[p].refcount) == 1 ==> (ok <==> old(pf[p].typ) == ALLOCATED)
      ensures ok && old(pf[p].refcount) == 1 ==> Valid() && list == [p] + old(list)
      ensures ok && old(pf[p].refcount) == 1 ==> View().taken == old(View().taken) - {p}
      ensures forall q | 0 <= q < pf.Length && q != p ::
        pf[q].typ == old(pf[q].typ) && pf[q].refcount == old(pf[q].refcount)
      ensures old(pf[p].refcount) != 1 ==> ok && Valid() && list == old(list)
      ensures old(pf[p].refcount) != 1 ==> pf[p].refcount == (old(pf[p].refcount) + REF_LIMIT - 1) % REF_LIMIT
    {
      ghost var was := pf[..];
      pf[p] := pf[p].(refcount := (pf[p].refcount + REF_LIMIT - 1) % REF_LIMIT);
      CountsDoNotMatter(was, pf[..], list);
      if pf[p].refcount != 0 { return true; }
      ok := PfFree(p);
    }

    /** The records of one region, chained. */
    method Chain(lo: nat, hi: nat)
      requires lo < hi <= pf.Length < INVALID
      modifies pf
      ensures forall p | lo <= p < hi :: pf[p].typ == AVAILABLE && pf[p].next == p + 1
      ensures forall p | lo <= p < hi :: pf[p].prev == if p == 0 then INVALID else p - 1
      ensures forall p | 0 <= p < pf.Length && !(lo <= p < hi) :: pf[p] == old(pf[p])
    {
      var p := lo;
      while p < hi
        invariant lo <= p <= hi
        invariant forall q | lo <= q < p :: pf[q].typ == AVAILABLE && pf[q].next == q + 1
        invariant forall q | lo <= q < p :: pf[q].prev == if q == 0 then INVALID else q - 1
        invariant forall q | 0 <= q < pf.Length && !(lo <= q < p) :: pf[q] == old(pf[q])
      {
        var prev := if p == 0 then INVALID else p - 1;   // uint32 wrap at 0
        pf[p] := pf[p].(prev := prev, next := p + 1, typ := AVAILABLE);
        p := p + 1;
      }
    }

    /** The chain of one region, linked to the end of the list. */
    method AppendRegion(lo: nat, hi: nat)
      requires Valid() && lo < hi <= pf.Length && Below(list, lo) && tail == Last(list) && avail == |list|
      modifies this`head, this`tail, this`avail, this`list, pf
      ensures Valid() && list == old(list) + Range(lo, hi) && tail == Last(list) && avail == |list|
      ensures forall p :: 0 <= p < pf.Length ==> pf[p].typ == if lo <= p < hi then AVAILABLE else old(pf[p].typ)
    {
      ghost var was, l := pf[..], list;
      Chain(lo, hi);
      if l != [] { assert ListedAt(was, l, |l| - 1); }
      LinkRegion(lo, hi);
      avail := avail + (hi - lo);
      list := list + Range(lo, hi);
      Appended(was, pf[..], l, lo, hi);
    }

    /** Ties the ends of a region's chain to the list. */
    method LinkRegion(lo: nat, hi: nat)
      requires lo < hi <= pf.Length < INVALID && (tail == INVALID || tail < lo)
      modifies this`head, this`tail, pf
      ensures head == (if old(tail) == INVALID then lo else old(head)) && tail == hi - 1
      ensures forall p :: 0 <= p < pf.Length ==> pf[p].typ == old(pf[p].typ) && pf[p].refcount == old(pf[p].refcount)
      ensures forall p :: 0 <= p < pf.Length ==> pf[p].prev == if p == lo then old(tail) else old(pf[p].prev)
      ensures forall p :: 0 <= p < pf.Length ==>
        pf[p].next == (if p == hi - 1 then INVALID else if p == old(tail) then lo else old(pf[p].next))
    {
      if tail == INVALID { head := lo; } else { pf[tail] := pf[tail].(next := lo); }
      pf[lo] := pf[lo].(prev := tail);
      pf[hi - 1] := pf[hi - 1].(next := INVALID);
      tail := hi - 1;
    }

    /** The frames of the first r regions are listed. */
    ghost predicate ListedTo(s: seq<Region>, r: nat)
      requires r <= |s|
      reads this, pf
    {
      Valid() && list == UsableFrames(s, r) && tail == Last(list) && avail == |list| && NoneTaken()
    }

    method ListRegion(s: seq<Region>, r: nat)
      requires Canonical(s) && Spans(s) && InDatabase(s, pf.Length) && r < |s| && ListedTo(s, r)
      modifies this, pf
      ensures ListedTo(s, r + 1)
    {
      NextFrames(s, r, pf.Length);
      if s[r].typ == USABLE {
        var lo, hi := s[r].addr / PAGE_SIZE, (s[r].addr + s[r].size) / PAGE_SIZE;
        AppendRegion(lo, hi);
      }
    }

    method Reset()
      requires pf.Length < INVALID
      modifies this, pf
      ensures ListedTo([], 0)
    {
      forall p | 0 <= p < pf.Length { pf[p] := Frame(0, 0, 0, UNUSED); }
      avail, head, tail, list := 0, INVALID, INVALID, [];
    }

    /** page_init: lists the frames of the usable regions of a normalised memory map. */
    method Init(s: seq<Region>)
      requires Canonical(s) && Spans(s) && pf.Length < INVALID && InDatabase(s, pf.Length)
      modifies this, pf
      ensures Valid() && list == UsableFrames(s, |s|) && avail == |list| && tail == Last(list)
      ensures Ascending(list) && NoneTaken() && View().taken == {}
    {
      Reset();
      var r := 0;
      while r < |s|
        invariant r <= |s| && ListedTo(s, r)
      {
        ListRegion(s, r);
        r := r + 1;
      }
      FramesAscend(s, |s|);
    }
  }

  /** Taking the first frame off the list. */
  lemma Unlisted(was: seq<Frame>, now: seq<Frame>, l: seq<nat>)
    requires Listed(was, l) && l != [] && l[0] < |was| == |now| && now[l[0]].typ == ALLOCATED
    requires forall p :: 0 <= p < |was| && p != l[0] ==>
      now[p] == if |l| > 1 && p == l[1] then was[p].(prev := INVALID) else was[p]
    ensures Listed(now, l[1..])
  {
    var r := l[1..];
    forall i | 0 <= i < |r|
      ensures ListedAt(now, r, i)
    {
      assert ListedAt(was, l, i + 1);
      assert r[i] == l[i + 1];
    }
    forall p | 0 <= p < |now| && now[p].typ == AVAILABLE
      ensures p in r
    {
      assert p in l && p != l[0];
    }
  }

  /** Putting a frame at the front of the list. */
  lemma Relisted(was: seq<Frame>, now: seq<Frame>, l: seq<nat>, p: nat)
    requires Listed(was, l) && l != [] && |now| == |was| && p < |was| && was[p].typ == ALLOCATED
    requires l[0] < |was| && now[p] == Frame(INVALID, l[0], 0, AVAILABLE)
    requires forall q :: 0 <= q < |was| && q != p ==> now[q] == if q == l[0] then was[q].(prev := p) else was[q]
    ensures Listed(now, [p] + l)
  {
    var r := [p] + l;
    forall i | 0 <= i < |l|
      ensures l[i] != p
    {
      assert ListedAt(was, l, i);
    }
    forall i | 0 <= i < |r|
      ensures ListedAt(now, r, i)
    {
      if i > 0 { assert ListedAt(was, l, i - 1); }
    }
    forall i, j | 0 <= i < j < |r|
      ensures r[i] != r[j]
    {
      assert r[j] == l[j - 1];
    }
  }

  lemma CountsDoNotMatter(was: seq<Frame>, now: seq<Frame>, l: seq<nat>)
    requires Listed(was, l) && |now| == |was|
    requires forall q :: 0 <= q < |was| ==>
      now[q].prev == was[q].prev && now[q].next == was[q].next && now[q].typ == was[q].typ
    ensures Listed(now, l)
  {
    forall i | 0 <= i < |l|
      ensures ListedAt(now, l, i)
    {
      assert ListedAt(was, l, i);
    }
  }

  /** Linking a chain of frames to the end of the list. */
  lemma Appended(was: seq<Frame>, now: seq<Frame>, l: seq<nat>, lo: nat, hi: nat)
    requires Listed(was, l) && Below(l, lo) && lo < hi <= |was| == |now|
    requires forall p :: lo <= p < hi ==>
      now[p].typ == AVAILABLE && now[p].next == (if p + 1 < hi then p + 1 else INVALID)
    requires forall p :: lo <= p < hi ==> now[p].prev == if p == lo then Last(l) else p - 1
    requires forall p :: 0 <= p < |was| && !(lo <= p < hi) ==>
      now[p] == if l != [] && p == Last(l) then was[p].(next := lo) else was[p]
    ensures Listed(now, l + Range(lo, hi))
  {
    var r := l + Range(lo, hi);
    forall i | 0 <= i < |r|
      ensures ListedAt(now, r, i)
    {
      if i < |l| { assert ListedAt(was, l, i); }
    }
    forall p | 0 <= p < |now| && now[p].typ == AVAILABLE
      ensures p in r
    {
      if lo <= p < hi { assert r[|l| + (p - lo)] == p; } else { assert p in l; }
    }
  }

  // ----- Reserving memory for the database itself -----

  function AlignUp(a: nat, align: nat): nat
    requires align > 0
  {
    (a + align - 1) / align * align
  }

  /** Whether an aligned block of this size fits into a usable region. */
  predicate Holds(r: Region, size: nat) {
    r.typ == USABLE && AlignUp(r.addr, PAGE_SIZE_LARGE) + size <= r.End()
  }

  /** The block at paddr is the first aligned one in region i, and no region before it can hold one. */
  ghost predicate FoundIn(s: seq<Region>, size: nat, i: nat, paddr: nat)
    requires i < |s|
  {
    && Holds(s[i], size) && s[i].addr <= paddr < s[i].addr + PAGE_SIZE_LARGE && paddr + size <= s[i].End()
    && forall k :: 0 <= k < i ==> !Holds(s[k], size)
  }

  /** A block of this size, aligned to 2 MiB, fits into a usable region at address p. */
  predicate FitsAt(r: Region, size: nat, p: nat) {
    r.typ == 1 && p % 0x20_0000 == 0 && r.addr <= p && p + size <= r.End()
  }

  /** If it fits anywhere in a region, it fits at the first aligned address. */
  lemma HoldsSomewhere(r: Region, size: nat)
    ensures Holds(r, size) <==> exists p: nat :: FitsAt(r, size, p)
  {
    var u := AlignUp(r.addr, PAGE_SIZE_LARGE);
    AlignUpMeaning(r.addr);
    if Holds(r, size) { assert FitsAt(r, size, u); }
    if p: nat :| FitsAt(r, size, p) { NextAfter(r.addr, p / 0x20_0000); }
  }

  /** Rounding up gives the least multiple. */
  lemma NextAfter(a: nat, k: nat)
    requires a <= 0x20_0000 * k
    ensures AlignUp(a, PAGE_SIZE_LARGE) <= 0x20_0000 * k
  {
  }

  /** reserve_region: the aligned start of the first usable region that can hold the block. */
  method ReserveRegion(s: seq<Region>, size: nat) returns (found: bool, paddr: nat)
    ensures found <==> exists i :: 0 <= i < |s| && Holds(s[i], size)
    ensures found <==> exists i, p: nat :: 0 <= i < |s| && FitsAt(s[i], size, p)
    ensures found ==> paddr % PAGE_SIZE_LARGE == 0
    ensures found ==> exists i :: 0 <= i < |s| && FoundIn(s, size, i, paddr)
  {
    forall i | 0 <= i < |s|
      ensures Holds(s[i], size) <==> exists p: nat :: FitsAt(s[i], size, p)
    {
      HoldsSomewhere(s[i], size);
    }
    var r := 0;
    while r < |s|
      invariant r <= |s| && forall k :: 0 <= k < r ==> !Holds(s[k], size)
    {
      AlignUpMeaning(s[r].addr);
      if s[r].typ == USABLE && s[r].size >= size {
        paddr := (s[r].addr + PAGE_SIZE_LARGE - 1) / PAGE_SIZE_LARGE * PAGE_SIZE_LARGE;
        if paddr + size <= s[r].addr + s[r].size {
          assert FoundIn(s, size, r, paddr);
          return true, paddr;
        }
      }
      r := r + 1;
    }
    return false, 0;
  }

  lemma AlignUpMeaning(a: nat)
    ensures var u := AlignUp(a, PAGE_SIZE_LARGE); u % PAGE_SIZE_LARGE == 0 && a <= u < a + PAGE_SIZE_LARGE
  {
  }

  /** No frame of the memory that the database itself occupies is listed. */
  lemma DatabaseNotListed(s: seq<Region>, t: seq<Region>, paddr: nat, size: nat, p: nat)
    requires IsNormalOf(t, s + [Region(paddr, size, RESERVED, 0)])
    requires paddr <= p * PAGE_SIZE && LastByte(p) < paddr + size
    ensures p !in UsableFrames(t, |t|)
  {
    var x := LastByte(p);
    var own := Region(paddr, size, RESERVED, 0);
    assert own.Covers(x);
    TypeAtConcat(s, [own], x);
    TypeAtOne(own, x);
    assert TypeAt(t, x) >= RESERVED;
    ListedIsUsable(t, p);
  }
}
