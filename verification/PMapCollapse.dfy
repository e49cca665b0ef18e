/** collapse_overlaps, as a scan over a sorted list of regions, and what it preserves. */
module PMapCollapse {
  import opened Common
  import opened PMapRegions

  /** A list of regions and the position of the scan in it. */
  datatype Scan = Scan(s: seq<Region>, c: nat)

  predicate Overlap(cur: Region, next: Region) {
    (if cur.End() < next.End() then cur.End() else next.End()) > Max(cur.addr, next.addr)
  }

  /** The regions that one iteration puts in place of the two it looks at, before resorting. */
  function Resolved(cur: Region, next: Region): seq<Region>
    requires Cmp(cur, next) <= 0
  {
    var cl, cr, nl, nr := cur.addr, cur.End(), next.addr, next.End();
    if cur.size == 0 then [next]
    else if !Overlap(cur, next) then [cur, next]
    else if cl == nl then
      if next.typ > cur.typ then [next]
      else if cr == nr then [cur]
      else [cur, next.(addr := cr, size := nr - cr)]
    else if next.typ > cur.typ then
      if cr <= nr then [cur.(size := nl - cl), next]
      else [cur.(size := nl - cl), next, Region(nr, cr - nr, cur.typ, cur.flags)]
    else if cr < nr then [cur, next.(addr := cr, size := nr - cr)]
    else [cur]
  }

  /** Whether the last of these regions may belong further up the list. */
  predicate MovesLast(cur: Region, next: Region) {
    && cur.size > 0 && Overlap(cur, next)
    && if next.typ <= cur.typ then cur.End() < next.End() else cur.addr < next.addr && next.End() < cur.End()
  }

  /** The list with regions c and c + 1 replaced by M. */
  function ReplaceTwo(s: seq<Region>, c: nat, M: seq<Region>): seq<Region>
    requires c + 1 < |s|
  {
    s[..c] + M + s[c + 2..]
  }

  /** One iteration of the scan. */
  function Step(s: seq<Region>, c: nat): Scan
    requires c + 1 < |s| && SortedFrom(s, c)
  {
    assert Cmp(s[c], s[c + 1]) <= 0;
    var M := Resolved(s[c], s[c + 1]);
    var r := ReplaceTwo(s, c, M);
    Scan(if MovesLast(s[c], s[c + 1]) then Resort(r, c + |M| - 1) else r,
         if s[c].size == 0 || Overlap(s[c], s[c + 1]) then c else c + 1)
  }

  /** The same replacements, as removals and updates. */
  lemma StepShape(s: seq<Region>, c: nat)
    requires c + 1 < |s|
    ensures Delete(s, c) == ReplaceTwo(s, c, [s[c + 1]]) && Delete(s, c + 1) == ReplaceTwo(s, c, [s[c]])
    ensures s == ReplaceTwo(s, c, [s[c], s[c + 1]])
  {
  }

  // ----- Termination -----

  function TotalSize(s: seq<Region>): nat {
    if s == [] then 0 else s[0].size + TotalSize(s[1..])
  }

  lemma {:induction false} TotalSizeConcat(a: seq<Region>, b: seq<Region>)
    ensures TotalSize(a + b) == TotalSize(a) + TotalSize(b)
  {
    if a == [] {
      assert a + b == b;
    } else {
      assert (a + b)[1..] == a[1..] + b;
      TotalSizeConcat(a[1..], b);
    }
  }

  lemma TotalSizeFew(a: Region, b: Region, d: Region)
    ensures TotalSize([a]) == a.size && TotalSize([a, b]) == a.size + b.size
    ensures TotalSize([a, b, d]) == a.size + b.size + d.size
  {
    assert [a][1..] == [] && [b][1..] == [] && [d][1..] == [];
    assert [a, b] == [a] + [b] && [a, b, d] == [a, b] + [d];
    TotalSizeConcat([a], [b]);
    TotalSizeConcat([a, b], [d]);
  }

  lemma TotalSizeReplace(s: seq<Region>, c: nat, M: seq<Region>)
    requires c + 1 < |s|
    ensures TotalSize(ReplaceTwo(s, c, M)) == TotalSize(s) - s[c].size - s[c + 1].size + TotalSize(M)
  {
    assert s == s[..c] + [s[c], s[c + 1]] + s[c + 2..];
    TotalSizeConcat(s[..c] + [s[c], s[c + 1]], s[c + 2..]);
    TotalSizeConcat(s[..c], [s[c], s[c + 1]]);
    TotalSizeConcat(s[..c] + M, s[c + 2..]);
    TotalSizeConcat(s[..c], M);
    TotalSizeFew(s[c], s[c + 1], s[c]);
  }

  lemma {:induction false} TotalSizeResort(s: seq<Region>, i: nat)
    requires i < |s|
    ensures TotalSize(Resort(s, i)) == TotalSize(s)
    decreases |s| - i
  {
    if i + 1 < |s| && Cmp(s[i], s[i + 1]) >= 0 {
      var t := s[i := s[i + 1]][i + 1 := s[i]];
      TotalSizeReplace(s, i, [s[i + 1], s[i]]);
      assert t == ReplaceTwo(s, i, [s[i + 1], s[i]]);
      TotalSizeFew(s[i + 1], s[i], s[i]);
      TotalSizeResort(t, i + 1);
    }
  }

  lemma ResolvedSize(cur: Region, next: Region)
    requires Cmp(cur, next) <= 0
    ensures if cur.size > 0 && Overlap(cur, next) then TotalSize(Resolved(cur, next)) < cur.size + next.size
      else TotalSize(Resolved(cur, next)) == cur.size + next.size
  {
    var M := Resolved(cur, next);
    TotalSizeFew(M[0], if |M| > 1 then M[1] else M[0], if |M| > 2 then M[2] else M[0]);
  }

  /** Every iteration removes bytes from the list or, removing none, gets closer to its end. */
  lemma StepProgress(s: seq<Region>, c: nat)
    requires c + 1 < |s| && SortedFrom(s, c)
    ensures var n := Step(s, c);
      || TotalSize(n.s) < TotalSize(s)
      || (TotalSize(n.s) == TotalSize(s) && |n.s| - n.c < |s| - c)
  {
    assert Cmp(s[c], s[c + 1]) <= 0;
    var M := Resolved(s[c], s[c + 1]);
    ResolvedSize(s[c], s[c + 1]);
    TotalSizeReplace(s, c, M);
    if MovesLast(s[c], s[c + 1]) { TotalSizeResort(ReplaceTwo(s, c, M), c + |M| - 1); }
  }

  // ----- Meaning -----

  /** Two neighbouring regions replaced by others that say the same. */
  lemma ReplaceTwoMeaning(s: seq<Region>, c: nat, M: seq<Region>, x: int)
    requires c + 1 < |s| && TypeAt(M, x) == Max(Max(TypeIn(s[c], x), TypeIn(s[c + 1], x)), 0)
    ensures TypeAt(ReplaceTwo(s, c, M), x) == TypeAt(s, x)
  {
    assert s == s[..c] + ([s[c], s[c + 1]] + s[c + 2..]);
    TypeAtConcat(s[..c], [s[c], s[c + 1]] + s[c + 2..], x);
    TypeAtConcat([s[c], s[c + 1]], s[c + 2..], x);
    TypeAtTwo(s[c], s[c + 1], x);
    TypeAtConcat(s[..c] + M, s[c + 2..], x);
    TypeAtConcat(s[..c], M, x);
  }

  lemma TypeAtOne(a: Region, x: int)
    ensures TypeAt([a], x) == Max(TypeIn(a, x), 0)
  {
    assert [a][1..] == [];
  }

  lemma TypeAtTwo(a: Region, b: Region, x: int)
    ensures TypeAt([a, b], x) == Max(Max(TypeIn(a, x), TypeIn(b, x)), 0)
  {
    assert [a, b] == [a] + [b];
    TypeAtConcat([a], [b], x);
    TypeAtOne(a, x);
    TypeAtOne(b, x);
  }

  lemma TypeAtThree(a: Region, b: Region, d: Region, x: int)
    ensures TypeAt([a, b, d], x) == Max(Max(TypeIn(a, x), TypeIn(b, x)), Max(TypeIn(d, x), 0))
  {
    assert [a, b, d] == [a, b] + [d];
    TypeAtConcat([a, b], [d], x);
    TypeAtTwo(a, b, x);
    TypeAtOne(d, x);
  }

  /** In every alignment case the replacement says the same about every address. */
  lemma ResolvedMeaning(cur: Region, next: Region, x: int)
    requires Cmp(cur, next) <= 0
    ensures TypeAt(Resolved(cur, next), x) == Max(Max(TypeIn(cur, x), TypeIn(next, x)), 0)
  {
    var M := Resolved(cur, next);
    if |M| == 1 {
      TypeAtOne(M[0], x);
    } else if |M| == 2 {
      TypeAtTwo(M[0], M[1], x);
    } else {
      TypeAtThree(M[0], M[1], M[2], x);
    }
  }

  /** Resorting a region from position c on leaves the regions before it. */
  lemma ResortFront(r: seq<Region>, k: nat, c: nat, t: seq<Region>)
    requires c <= k < |r| && t == Resort(r, k)
    ensures multiset(t) == multiset(r) && t[..c] == r[..c]
  {
    ResortPermutes(r, k);
    assert t[..c] == t[..k][..c] && r[..c] == r[..k][..c];
  }

  lemma StepIs(s: seq<Region>, c: nat, M: seq<Region>, r: seq<Region>)
    requires c + 1 < |s| && SortedFrom(s, c) && Cmp(s[c], s[c + 1]) <= 0
    requires M == Resolved(s[c], s[c + 1]) && r == ReplaceTwo(s, c, M)
    ensures |M| > 0 && r[..c] == s[..c] && c + |M| - 1 < |r|
    ensures Step(s, c).s == if MovesLast(s[c], s[c + 1]) then Resort(r, c + |M| - 1) else r
  {
  }

  /** Whatever the order, an iteration leaves its replacement regions and the others. */
  lemma StepPermutes(s: seq<Region>, c: nat)
    requires c + 1 < |s| && SortedFrom(s, c)
    ensures Cmp(s[c], s[c + 1]) <= 0
    ensures multiset(Step(s, c).s) == multiset(ReplaceTwo(s, c, Resolved(s[c], s[c + 1])))
    ensures Step(s, c).s[..c] == s[..c]
  {
    assert Cmp(s[c], s[c + 1]) <= 0;
    var M := Resolved(s[c], s[c + 1]);
    var r := ReplaceTwo(s, c, M);
    StepIs(s, c, M, r);
    if MovesLast(s[c], s[c + 1]) { ResortFront(r, c + |M| - 1, c, Step(s, c).s); }
  }

  lemma StepMeaning(s: seq<Region>, c: nat, x: int)
    requires c + 1 < |s| && SortedFrom(s, c)
    ensures TypeAt(Step(s, c).s, x) == TypeAt(s, x)
  {
    StepPermutes(s, c);
    var M := Resolved(s[c], s[c + 1]);
    ResolvedMeaning(s[c], s[c + 1], x);
    ReplaceTwoMeaning(s, c, M, x);
    TypeAtPermuted(Step(s, c).s, ReplaceTwo(s, c, M), x);
  }

  // ----- Order, disjointness, endpoints -----

  lemma SortedReplaced(s: seq<Region>, c: nat)
    requires c + 1 < |s| && SortedFrom(s, c)
    ensures Cmp(s[c], s[c + 1]) <= 0
    ensures var r := ReplaceTwo(s, c, Resolved(s[c], s[c + 1]));
      if MovesLast(s[c], s[c + 1]) then SortedFrom(r, c + |Resolved(s[c], s[c + 1])|) else SortedFrom(r, c)
  {
  }

  /** Resorting region k keeps the regions before it in order, if they are below what may end up there. */
  lemma ResortBehind(r: seq<Region>, c: nat, k: nat)
    requires c < k < |r| && SortedFrom(r, k + 1)
    requires forall i :: c <= i < k ==> Cmp(r[i], r[i + 1]) <= 0
    requires k + 1 < |r| ==> Cmp(r[k - 1], r[k + 1]) <= 0
    ensures SortedFrom(Resort(r, k), c)
  {
    var t := Resort(r, k);
    ResortSorts(r, k);
    ResortPermutes(r, k);
    assert forall i :: 0 <= i < k ==> t[i] == t[..k][i] == r[..k][i] == r[i];
  }

  /** The scan keeps what is ahead of it sorted. */
  lemma StepSorted(s: seq<Region>, c: nat)
    requires c + 1 < |s| && SortedFrom(s, c)
    ensures SortedFrom(Step(s, c).s, Step(s, c).c)
  {
    SortedReplaced(s, c);
    var cur, next := s[c], s[c + 1];
    var M := Resolved(cur, next);
    if MovesLast(cur, next) {
      var r, k := ReplaceTwo(s, c, M), c + |M| - 1;
      assert r[c] == M[0] && r[c + 1] == M[1] && r[k] == M[|M| - 1];
      if k + 1 < |r| { assert r[k + 1] == s[c + 2] && Cmp(next, s[c + 2]) <= 0; }
      ResortBehind(r, c, k);
    }
  }

  /** The regions before the scan end before the next one starts. */
  ghost predicate Apart(s: seq<Region>, c: nat) {
    forall i :: 0 <= i < c && i < |s| - 1 ==> s[i].End() <= s[i + 1].addr
  }

  /** No empty region lies strictly inside a non-empty one. */
  ghost predicate Clear(s: seq<Region>) {
    forall e, r :: e in s && r in s && e.size == 0 && r.size > 0 ==> !(r.addr < e.addr < r.End())
  }

  /** After each empty region some non-empty one starts. */
  ghost predicate Followed(s: seq<Region>) {
    forall e :: e in s && e.size == 0 ==> exists r :: r in s && r.size > 0 && e.addr <= r.addr
  }

  /** Empty regions that do not disturb the scan. */
  ghost predicate Harmless(s: seq<Region>) { Clear(s) && Followed(s) }

  lemma NonEmptyHarmless(s: seq<Region>)
    requires NonEmpty(s)
    ensures Harmless(s)
  {
  }

  lemma HarmlessPermuted(s: seq<Region>, t: seq<Region>)
    requires multiset(s) == multiset(t) && Harmless(s)
    ensures Harmless(t)
  {
    assert forall r :: r in t ==> r in multiset(t);
    assert forall r :: r in s ==> r in multiset(s);
    forall e | e in t && e.size == 0
      ensures exists r :: r in t && r.size > 0 && e.addr <= r.addr
    {
      var r :| r in s && r.size > 0 && e.addr <= r.addr;
      assert r in t;
    }
  }

  /** The regions put in place of two are pieces of them, or the two themselves. */
  lemma ResolvedPieces(cur: Region, next: Region, q: Region)
    requires Cmp(cur, next) <= 0 && q in Resolved(cur, next)
    ensures q.size == 0 ==> q == cur || q == next
    ensures q.size > 0 ==>
      || (cur.size > 0 && cur.addr <= q.addr && q.End() <= cur.End())
      || (next.size > 0 && next.addr <= q.addr && q.End() <= next.End())
  {
  }

  /** What started after an address outside of the two is still followed by a piece. */
  lemma ResolvedFollows(cur: Region, next: Region, e: nat) returns (q: Region)
    requires Cmp(cur, next) <= 0 && !(cur.size > 0 && cur.addr < e < cur.End())
    requires (cur.size > 0 && e <= cur.addr) || (next.size > 0 && e <= next.addr)
    ensures q in Resolved(cur, next) && q.size > 0 && e <= q.addr
  {
    var M := Resolved(cur, next);
    if M[0].size > 0 && e <= M[0].addr { return M[0]; }
    q := M[1];
  }

  lemma SameMembers(s: seq<Region>, t: seq<Region>, q: Region)
    requires multiset(s) == multiset(t)
    ensures q in s <==> q in t
  {
    assert q in s <==> q in multiset(s);
    assert q in t <==> q in multiset(t);
  }

  lemma MembersOf(a: seq<Region>, m: seq<Region>, b: seq<Region>)
    ensures forall q :: q in a + m + b <==> q in a || q in m || q in b
  {
  }

  lemma StepMembers(s: seq<Region>, c: nat)
    requires c + 1 < |s| && SortedFrom(s, c)
    ensures Cmp(s[c], s[c + 1]) <= 0
    ensures forall q :: q in Step(s, c).s <==> q in s[..c] || q in Resolved(s[c], s[c + 1]) || q in s[c + 2..]
    ensures forall q :: q in s <==> q in s[..c] || q == s[c] || q == s[c + 1] || q in s[c + 2..]
  {
    StepPermutes(s, c);
    var M := Resolved(s[c], s[c + 1]);
    var t, r := Step(s, c).s, ReplaceTwo(s, c, M);
    forall q
      ensures q in t <==> q in r
    {
      SameMembers(t, r, q);
    }
    MembersOf(s[..c], M, s[c + 2..]);
    MembersOf(s[..c], [s[c], s[c + 1]], s[c + 2..]);
    assert s == s[..c] + [s[c], s[c + 1]] + s[c + 2..];
  }

  lemma StepClear(s: seq<Region>, c: nat)
    requires c + 1 < |s| && SortedFrom(s, c) && Clear(s)
    ensures Clear(Step(s, c).s)
  {
    StepMembers(s, c);
    var t := Step(s, c).s;
    forall e, r | e in t && r in t && e.size == 0 && r.size > 0
      ensures !(r.addr < e.addr < r.End())
    {
      if e in Resolved(s[c], s[c + 1]) { ResolvedPieces(s[c], s[c + 1], e); }
      assert e in s;
      if r in Resolved(s[c], s[c + 1]) { ResolvedPieces(s[c], s[c + 1], r); }
    }
  }

  lemma StepFollowed(s: seq<Region>, c: nat)
    requires c + 1 < |s| && SortedFrom(s, c) && Harmless(s)
    ensures Followed(Step(s, c).s)
  {
    StepMembers(s, c);
    var t := Step(s, c).s;
    forall e | e in t && e.size == 0
      ensures exists r :: r in t && r.size > 0 && e.addr <= r.addr
    {
      if e in Resolved(s[c], s[c + 1]) { ResolvedPieces(s[c], s[c + 1], e); }
      assert e in s;
      var r :| r in s && r.size > 0 && e.addr <= r.addr;
      if r == s[c] || r == s[c + 1] {
        assert s[c] in s;
        var q := ResolvedFollows(s[c], s[c + 1], e.addr);
        assert q in t;
      } else {
        assert r in t;
      }
    }
  }

  /** An empty region after all others: the scan leaves it, or another one after it. */
  lemma StepUnfollowed(s: seq<Region>, c: nat)
    requires c + 1 < |s| && SortedFrom(s, c) && Clear(s) && !Followed(s)
    ensures !Followed(Step(s, c).s)
  {
    StepMembers(s, c);
    var t, cur, next := Step(s, c).s, s[c], s[c + 1];
    assert cur in s && next in s;
    var e :| e in s && e.size == 0 && forall r :: r in s && r.size > 0 ==> r.addr < e.addr;
    forall q | q in t && q.size > 0
      ensures q.addr < e.addr
    {
      if q in Resolved(cur, next) {
        ResolvedPieces(cur, next, q);
        assert q.addr < q.End();
      } else {
        assert q in s;
      }
    }
    if e !in t {
      assert e == cur && next in Resolved(cur, next) && next in t && next.size == 0 && e.addr <= next.addr;
    }
  }

  lemma StepTyped(s: seq<Region>, c: nat)
    requires c + 1 < |s| && SortedFrom(s, c) && Typed(s)
    ensures Typed(Step(s, c).s)
  {
    StepPermutes(s, c);
    var r := ReplaceTwo(s, c, Resolved(s[c], s[c + 1]));
    var t := Step(s, c).s;
    assert Typed(r);
    forall i | 0 <= i < |t|
      ensures t[i].typ >= 1
    {
      assert t[i] in multiset(r);
    }
  }

  /** The region at the scan, after an iteration, starts no earlier than the one before. */
  lemma StepFront(s: seq<Region>, c: nat)
    requires c + 1 < |s| && SortedFrom(s, c)
    ensures c < |Step(s, c).s| && s[c].addr <= Step(s, c).s[c].addr
    ensures Step(s, c).c == c + 1 ==> Step(s, c).s == s && !Overlap(s[c], s[c + 1])
  {
    assert Cmp(s[c], s[c + 1]) <= 0;
    var M := Resolved(s[c], s[c + 1]);
    var r := ReplaceTwo(s, c, M);
    assert r[c] == M[0];
    assert s == s[..c] + [s[c], s[c + 1]] + s[c + 2..];
    if MovesLast(s[c], s[c + 1]) {
      var k := c + |M| - 1;
      ResortPermutes(r, k);
      assert Resort(r, k)[c] == Resort(r, k)[..k][c] == r[..k][c];
    }
  }

  /** Behind the scan no region is empty, and none reaches into a later non-empty one. */
  ghost predicate Behind(s: seq<Region>, c: nat) {
    && (forall i :: 0 <= i < c && i < |s| ==> s[i].size > 0)
    && (forall i, j :: 0 <= i < c && i < j < |s| && s[j].size > 0 ==> s[i].End() <= s[j].addr)
  }

  /** If the scan passes region c because the next one is empty, region c does not reach into a later one. */
  ghost predicate PassesWell(s: seq<Region>, c: nat)
    requires c + 1 < |s|
  {
    s[c].size > 0 && s[c + 1].size == 0 ==> forall j :: c + 1 < j < |s| && s[j].size > 0 ==> s[c].End() <= s[j].addr
  }

  lemma {:induction false} AddressesRise(s: seq<Region>, i: nat, j: nat)
    requires SortedFrom(s, i) && i <= j < |s|
    ensures s[i].addr <= s[j].addr
    decreases j - i
  {
    if i < j {
      assert Cmp(s[i], s[i + 1]) <= 0;
      AddressesRise(s, i + 1, j);
    }
  }

  /** A region that the scan passes does not reach into a later one. */
  lemma PassedBehind(s: seq<Region>, c: nat)
    requires c + 1 < |s| && SortedFrom(s, c) && Behind(s, c) && PassesWell(s, c) && s[c].size > 0
    requires !Overlap(s[c], s[c + 1])
    ensures Behind(s, c + 1)
  {
    assert Cmp(s[c], s[c + 1]) <= 0;
    forall j | c < j < |s| && s[j].size > 0
      ensures s[c].End() <= s[j].addr
    {
      if s[c + 1].size > 0 { AddressesRise(s, c + 1, j); }
    }
  }

  lemma SameRest(t: seq<Region>, r: seq<Region>, c: nat)
    requires multiset(t) == multiset(r) && c <= |t| && c <= |r| && t[..c] == r[..c]
    ensures multiset(t[c..]) == multiset(r[c..])
  {
    assert t == t[..c] + t[c..] && r == r[..c] + r[c..];
    assert multiset(t[c..]) == multiset(t) - multiset(t[..c]);
    assert multiset(r[c..]) == multiset(r) - multiset(r[..c]);
  }

  lemma ReplacedRest(s: seq<Region>, c: nat, M: seq<Region>)
    requires c + 1 < |s|
    ensures ReplaceTwo(s, c, M)[..c] == s[..c] && ReplaceTwo(s, c, M)[c..] == M + s[c + 2..]
  {
  }

  /** The regions from the scan on, after an iteration that does not move it. */
  lemma StepAhead(s: seq<Region>, c: nat)
    requires c + 1 < |s| && SortedFrom(s, c)
    ensures Cmp(s[c], s[c + 1]) <= 0 && c < |Step(s, c).s|
    ensures Step(s, c).s[..c] == s[..c]
    ensures forall q :: q in Step(s, c).s[c..] <==> q in Resolved(s[c], s[c + 1]) || q in s[c + 2..]
  {
    StepPermutes(s, c);
    StepFront(s, c);
    var M := Resolved(s[c], s[c + 1]);
    ReplacedRest(s, c, M);
    AheadIs(Step(s, c).s, ReplaceTwo(s, c, M), c, M, s[c + 2..]);
  }

  lemma AheadIs(t: seq<Region>, r: seq<Region>, c: nat, a: seq<Region>, b: seq<Region>)
    requires multiset(t) == multiset(r) && c <= |t| && c <= |r| && t[..c] == r[..c] && r[c..] == a + b
    ensures forall q :: q in t[c..] <==> q in a || q in b
  {
    SameRest(t, r, c);
    SameUnion(t[c..], r[c..], a, b);
  }

  lemma SameUnion(t: seq<Region>, r: seq<Region>, a: seq<Region>, b: seq<Region>)
    requires multiset(t) == multiset(r) && r == a + b
    ensures forall q :: q in t <==> q in a || q in b
  {
    forall q
      ensures q in t <==> q in a || q in b
    {
      SameMembers(t, r, q);
    }
  }

  /** A non-empty region from the scan on starts no earlier than some non-empty one did before the iteration. */
  lemma StepStarts(s: seq<Region>, c: nat, q: Region) returns (j: nat)
    requires c + 1 < |s| && SortedFrom(s, c) && q in Step(s, c).s[c..] && q.size > 0 && c <= |Step(s, c).s|
    ensures c <= j < |s| && s[j].size > 0 && s[j].addr <= q.addr
  {
    StepAhead(s, c);
    if q in s[c + 2..] {
      var k :| 0 <= k < |s[c + 2..]| && s[c + 2..][k] == q;
      return c + 2 + k;
    }
    ResolvedPieces(s[c], s[c + 1], q);
    if s[c].size > 0 && s[c].addr <= q.addr && q.End() <= s[c].End() { return c; }
    return c + 1;
  }

  lemma StepBehind(s: seq<Region>, c: nat)
    requires c + 1 < |s| && SortedFrom(s, c) && Behind(s, c) && PassesWell(s, c)
    ensures Behind(Step(s, c).s, Step(s, c).c)
  {
    StepFront(s, c);
    if Step(s, c).c == c + 1 {
      PassedBehind(s, c);
    } else {
      StepAhead(s, c);
      var t := Step(s, c).s;
      forall i | 0 <= i < c
        ensures t[i] == s[i]
      {
        assert t[..c][i] == s[..c][i];
      }
      forall i, j | 0 <= i < c && i < j < |t| && t[j].size > 0
        ensures t[i].End() <= t[j].addr
      {
        if j >= c {
          assert t[j] == t[c..][j - c];
          var k := StepStarts(s, c, t[j]);
        }
      }
    }
  }

  /** A region behind the scan reaches into a later one. */
  ghost predicate Reaches(s: seq<Region>, c: nat, i: nat, j: nat) {
    i < c && i < j < |s| && s[i].size > 0 && s[j].size > 0 && s[j].addr < s[i].End()
  }

  /** Of the regions put in place of two, the first starts no later than any non-empty one of the two. */
  lemma ResolvedStart(cur: Region, next: Region)
    requires Cmp(cur, next) <= 0 && (cur.size == 0 || Overlap(cur, next)) && (cur.size > 0 || next.size > 0)
    ensures
      var q := Resolved(cur, next)[0];
      q.size > 0 && (cur.size > 0 ==> q.addr <= cur.addr) && (next.size > 0 ==> q.addr <= next.addr)
  {
  }

  /** Of the regions from the scan on, some non-empty one starts no later than a given one did before the iteration. */
  lemma StepStartsNoLater(s: seq<Region>, c: nat, j: nat) returns (k: nat)
    requires c + 1 < |s| && SortedFrom(s, c) && Step(s, c).c == c && c <= j < |s| && s[j].size > 0
    ensures c <= k < |Step(s, c).s| && Step(s, c).s[k].size > 0 && Step(s, c).s[k].addr <= s[j].addr
  {
    StepAhead(s, c);
    var t := Step(s, c).s;
    var q := s[j];
    if j < c + 2 {
      ResolvedStart(s[c], s[c + 1]);
      q := Resolved(s[c], s[c + 1])[0];
    } else {
      assert s[j] == s[c + 2..][j - c - 2];
    }
    assert q in t[c..];
    var l :| 0 <= l < |t[c..]| && t[c..][l] == q;
    k := c + l;
  }

  /** The scan never looks back: a region that reaches into a later one will still do so. */
  lemma StepReaches(s: seq<Region>, c: nat, i: nat, j: nat) returns (k: nat)
    requires c + 1 < |s| && SortedFrom(s, c) && Reaches(s, c, i, j)
    ensures Reaches(Step(s, c).s, Step(s, c).c, i, k)
  {
    StepFront(s, c);
    StepPermutes(s, c);
    var t := Step(s, c).s;
    assert t[i] == t[..c][i] == s[..c][i];
    if Step(s, c).c == c + 1 { return j; }
    if j < c {
      assert t[j] == t[..c][j] == s[..c][j];
      return j;
    }
    k := StepStartsNoLater(s, c, j);
  }

  /** Behind the scan every region starts before the next one. */
  ghost predicate Rising(s: seq<Region>, c: nat) {
    forall i :: 0 <= i < c && i < |s| - 1 ==> s[i].addr < s[i + 1].addr
  }

  lemma RisesOn(s: seq<Region>, c: nat)
    requires c + 1 < |s| && Rising(s, c) && Cmp(s[c], s[c + 1]) <= 0 && s[c].size > 0 && !Overlap(s[c], s[c + 1])
    ensures Rising(s, c + 1)
  {
  }

  lemma RisingAgain(s: seq<Region>, t: seq<Region>, c: nat)
    requires c < |s| && c < |t| && t[..c] == s[..c] && s[c].addr <= t[c].addr && Rising(s, c)
    ensures Rising(t, c)
  {
    forall i | 0 <= i < c && i < |t| - 1
      ensures t[i].addr < t[i + 1].addr
    {
      assert t[i] == t[..c][i] == s[..c][i];
      assert s[i].addr < s[i + 1].addr;
      if i + 1 < c { assert t[i + 1] == t[..c][i + 1] == s[..c][i + 1]; }
    }
  }

  lemma StepRising(s: seq<Region>, c: nat)
    requires c + 1 < |s| && SortedFrom(s, c) && Rising(s, c)
    ensures Rising(Step(s, c).s, Step(s, c).c)
  {
    StepFront(s, c);
    StepPermutes(s, c);
    if Step(s, c).c == c + 1 { RisesOn(s, c); } else { RisingAgain(s, Step(s, c).s, c); }
  }

  /** The addresses at which some region starts or ends. */
  ghost function Points(s: seq<Region>): set<int> {
    (set r | r in s :: r.addr) + (set r | r in s :: r.End())
  }

  lemma ResolvedPoints(cur: Region, next: Region, q: Region)
    requires Cmp(cur, next) <= 0 && q in Resolved(cur, next)
    ensures q.addr in {cur.addr, next.addr, cur.End(), next.End()}
    ensures q.End() in {cur.addr, next.addr, cur.End(), next.End()}
  {
  }

  lemma PointsOf(s: seq<Region>, q: Region)
    requires q in s
    ensures q.addr in Points(s) && q.End() in Points(s)
  {
  }

  /** No iteration makes up a new endpoint. */
  lemma StepPoints(s: seq<Region>, c: nat)
    requires c + 1 < |s| && SortedFrom(s, c)
    ensures Points(Step(s, c).s) <= Points(s)
  {
    StepMembers(s, c);
    PointsOf(s, s[c]);
    PointsOf(s, s[c + 1]);
    var t := Step(s, c).s;
    forall q | q in t
      ensures q.addr in Points(s) && q.End() in Points(s)
    {
      if q in Resolved(s[c], s[c + 1]) { ResolvedPoints(s[c], s[c + 1], q); } else { PointsOf(s, q); }
    }
  }

  // ----- The whole scan -----

  /** The list after the scan, from position c on. */
  function Collapse(s: seq<Region>, c: nat): seq<Region>
    requires SortedFrom(s, c)
    decreases TotalSize(s), |s| - c
  {
    if c + 1 >= |s| then s
    else
      StepProgress(s, c);
      StepSorted(s, c);
      var n := Step(s, c);
      Collapse(n.s, n.c)
  }

  /** The scan preserves what the list says about every address, even with empty regions in it. */
  lemma {:induction false} CollapseMeaning(s: seq<Region>, c: nat, x: int)
    requires SortedFrom(s, c)
    ensures TypeAt(Collapse(s, c), x) == TypeAt(s, x)
    decreases TotalSize(s), |s| - c
  {
    if c + 1 < |s| {
      StepProgress(s, c);
      StepSorted(s, c);
      StepMeaning(s, c, x);
      CollapseMeaning(Step(s, c).s, Step(s, c).c, x);
    }
  }

  /** Regions in order, none empty, no two overlapping. */
  ghost predicate Disjoint(s: seq<Region>) {
    NonEmpty(s) && Apart(s, |s|)
  }

  lemma {:induction false} EndsBefore(s: seq<Region>, i: nat, c: nat)
    requires i < c < |s| && Apart(s, c)
    ensures s[i].End() <= s[c].addr
    decreases c - i
  {
    assert s[i].End() <= s[i + 1].addr;
    if i + 1 < c { EndsBefore(s, i + 1, c); }
  }

  /** While the scan runs from position c on it never passes a region that reaches into a later one, and it does not
      end with an empty one. */
  ghost predicate Smooth(s: seq<Region>, c: nat)
    requires SortedFrom(s, c)
    decreases TotalSize(s), |s| - c
  {
    if c + 1 >= |s| then s == [] || s[|s| - 1].size > 0
    else
      StepProgress(s, c);
      StepSorted(s, c);
      PassesWell(s, c) && Smooth(Step(s, c).s, Step(s, c).c)
  }

  /** A smooth scan makes disjoint regions, with no endpoint that was not there before. */
  lemma {:induction false} CollapseDisjoint(s: seq<Region>, c: nat)
    requires SortedFrom(s, c) && Behind(s, c) && Smooth(s, c)
    ensures Disjoint(Collapse(s, c)) && (Typed(s) ==> Typed(Collapse(s, c)))
    ensures Points(Collapse(s, c)) <= Points(s)
    decreases TotalSize(s), |s| - c
  {
    if c + 1 < |s| {
      StepProgress(s, c);
      StepSorted(s, c);
      StepBehind(s, c);
      if Typed(s) { StepTyped(s, c); }
      StepPoints(s, c);
      CollapseDisjoint(Step(s, c).s, Step(s, c).c);
    }
  }

  lemma {:induction false} CollapseReaches(s: seq<Region>, c: nat, i: nat, j: nat)
    requires SortedFrom(s, c) && Reaches(s, c, i, j)
    ensures !Disjoint(Collapse(s, c))
    decreases TotalSize(s), |s| - c
  {
    if c + 1 < |s| {
      StepProgress(s, c);
      StepSorted(s, c);
      var k := StepReaches(s, c, i, j);
      CollapseReaches(Step(s, c).s, Step(s, c).c, i, k);
    } else if Disjoint(s) {
      EndsBefore(s, i, j);
    }
  }

  lemma {:induction false} CollapseUneven(s: seq<Region>, c: nat)
    requires SortedFrom(s, c) && Behind(s, c) && !Smooth(s, c)
    ensures !Disjoint(Collapse(s, c))
    decreases TotalSize(s), |s| - c
  {
    if c + 1 < |s| {
      StepProgress(s, c);
      StepSorted(s, c);
      if PassesWell(s, c) {
        StepBehind(s, c);
        CollapseUneven(Step(s, c).s, Step(s, c).c);
      } else {
        StepFront(s, c);
        var j :| c + 1 < j < |s| && s[j].size > 0 && s[j].addr < s[c].End();
        assert Reaches(s, c + 1, c, j) && Step(s, c) == Scan(s, c + 1);
        CollapseReaches(s, c + 1, c, j);
      }
    }
  }

  /** For any sorted list: the scan gives disjoint non-empty regions if and only if it is smooth. */
  lemma CollapseExact(s: seq<Region>)
    requires SortedFrom(s, 0)
    ensures Disjoint(Collapse(s, 0)) <==> Smooth(s, 0)
  {
    if Smooth(s, 0) { CollapseDisjoint(s, 0); } else { CollapseUneven(s, 0); }
  }

  /** The scan does not end with an empty region that non-empty ones follow. */
  lemma EndsNonEmpty(s: seq<Region>, c: nat)
    requires |s| <= c + 1 && Rising(s, c) && Followed(s) && s != []
    ensures s[|s| - 1].size > 0
  {
    var e := s[|s| - 1];
    if e.size == 0 {
      assert e in s;
      var r :| r in s && r.size > 0 && e.addr <= r.addr;
      var i :| 0 <= i < |s| && s[i] == r;
      StartsBelow(s, |s|);
    }
  }

  lemma StepHarmless(s: seq<Region>, c: nat)
    requires c + 1 < |s| && SortedFrom(s, c) && Rising(s, c) && Harmless(s)
    ensures PassesWell(s, c) && Rising(Step(s, c).s, Step(s, c).c) && Harmless(Step(s, c).s)
  {
    ClearPasses(s, c);
    StepRising(s, c);
    StepClear(s, c);
    StepFollowed(s, c);
  }

  /** Harmless empty regions leave the scan smooth. */
  lemma {:induction false} HarmlessSmooth(s: seq<Region>, c: nat)
    requires SortedFrom(s, c) && Rising(s, c) && Harmless(s)
    ensures Smooth(s, c)
    decreases TotalSize(s), |s| - c
  {
    if c + 1 < |s| {
      StepProgress(s, c);
      StepSorted(s, c);
      StepHarmless(s, c);
      HarmlessSmooth(Step(s, c).s, Step(s, c).c);
    } else if s != [] {
      EndsNonEmpty(s, c);
    }
  }

  lemma ClearPasses(s: seq<Region>, c: nat)
    requires c + 1 < |s| && SortedFrom(s, c) && Clear(s)
    ensures PassesWell(s, c)
  {
    var cur, next := s[c], s[c + 1];
    assert cur in s && next in s && Cmp(cur, next) <= 0;
    forall j | c + 1 < j < |s| && cur.size > 0 && next.size == 0
      ensures cur.End() <= s[j].addr
    {
      AddressesRise(s, c + 1, j);
    }
  }

  /** However the list is sorted, the scan is smooth. */
  ghost predicate Resolvable(s: seq<Region>) {
    forall t :: multiset(t) == multiset(s) && SortedFrom(t, 0) ==> Smooth(t, 0)
  }

  lemma HarmlessResolvable(s: seq<Region>)
    requires Harmless(s)
    ensures Resolvable(s)
  {
    forall t | multiset(t) == multiset(s) && SortedFrom(t, 0)
      ensures Smooth(t, 0)
    {
      HarmlessPermuted(s, t);
      HarmlessSmooth(t, 0);
    }
  }

  lemma {:induction false} CollapseUnfollowed(s: seq<Region>, c: nat)
    requires SortedFrom(s, c) && Clear(s) && !Followed(s)
    ensures !NonEmpty(Collapse(s, c))
    decreases TotalSize(s), |s| - c
  {
    if c + 1 < |s| {
      StepProgress(s, c);
      StepSorted(s, c);
      StepClear(s, c);
      StepUnfollowed(s, c);
      CollapseUnfollowed(Step(s, c).s, Step(s, c).c);
    }
  }

  /** In particular, where no empty region lies strictly inside a non-empty one: if and only if none lies after all
      others. */
  lemma ClearExact(s: seq<Region>)
    requires SortedFrom(s, 0) && Clear(s)
    ensures Disjoint(Collapse(s, 0)) <==> Followed(s)
  {
    if Followed(s) {
      HarmlessSmooth(s, 0);
      CollapseDisjoint(s, 0);
    } else {
      CollapseUnfollowed(s, 0);
    }
  }

  /** An empty region can hide an overlap from the scan: the result is sorted but not disjoint. */
  lemma EmptyRegionHidesOverlap()
    ensures var s := [Region(0, 100, 1, 0), Region(50, 0, 1, 0), Region(60, 10, 2, 0)];
      && SortedFrom(s, 0)
      && Collapse(s, 0) == [Region(0, 100, 1, 0), Region(60, 10, 2, 0)]
      && !Disjoint(Collapse(s, 0))
  {
    var a, b, d := Region(0, 100, 1, 0), Region(50, 0, 1, 0), Region(60, 10, 2, 0);
    var s := [a, b, d];
    StepSorted(s, 0);
    assert ReplaceTwo(s, 0, [a, b]) == s;
    assert Step(s, 0) == Scan(s, 1);
    assert ReplaceTwo(s, 1, [d]) == [a, d];
    assert Step(s, 1) == Scan([a, d], 1);
    assert Collapse(s, 0) == Collapse(s, 1) == Collapse([a, d], 1) == [a, d];
    assert [a, d][0].End() > [a, d][1].addr;
  }

  // ----- How much room the scan needs -----

  lemma {:induction false} DistinctStarts(s: seq<Region>, n: nat, P: set<int>)
    requires n <= |s| && (forall i :: 0 <= i < n - 1 ==> s[i].addr < s[i + 1].addr)
    requires forall i :: 0 <= i < n ==> s[i].addr in P
    ensures n <= |P|
  {
    if n > 0 {
      var last := s[n - 1].addr;
      StartsBelow(s, n);
      DistinctStarts(s, n - 1, P - {last});
    }
  }

  lemma {:induction false} StartsBelow(s: seq<Region>, n: nat)
    requires 0 < n <= |s| && (forall i :: 0 <= i < n - 1 ==> s[i].addr < s[i + 1].addr)
    ensures forall i :: 0 <= i < n - 1 ==> s[i].addr < s[n - 1].addr
  {
    if n > 1 { StartsBelow(s, n - 1); }
  }

  lemma {:induction false} FewPoints(s: seq<Region>)
    ensures |Points(s)| <= 2 * |s|
  {
    if s == [] {
      assert Points(s) == {};
    } else {
      FewPoints(s[1..]);
      assert s == [s[0]] + s[1..];
      assert Points(s) == {s[0].addr, s[0].End()} + Points(s[1..]);
    }
  }

  /**
    While the scan of n regions runs, at most n regions are at or ahead of it, or n + 1 just
    after one has been inserted; P holds the endpoints the scan started with.
  */
  ghost predicate Roomy(s: seq<Region>, c: nat, n: nat, P: set<int>) {
    && |P| <= 2 * n && Points(s) <= P && c <= |s|
    && (|s| - c <= n || (|s| - c == n + 1 && c + 1 < |s| && s[c].End() <= s[c + 1].addr))
  }

  lemma StepRoomy(s: seq<Region>, c: nat, n: nat, P: set<int>)
    requires c + 1 < |s| && SortedFrom(s, c) && Roomy(s, c, n, P)
    ensures Roomy(Step(s, c).s, Step(s, c).c, n, P)
  {
    StepPoints(s, c);
    StepFront(s, c);
    var M := Resolved(s[c], s[c + 1]);
    var r := ReplaceTwo(s, c, M);
    if |M| == 3 {
      var k := c + 2;
      ResortPermutes(r, k);
      var t := Resort(r, k);
      assert t[c] == t[..k][c] == r[..k][c] == M[0];
      assert t[c + 1] == t[..k][c + 1] == r[..k][c + 1] == M[1];
    }
  }

  /** The list never gets longer than three times its original length. */
  lemma RoomEnough(s: seq<Region>, c: nat, n: nat, P: set<int>)
    requires c < |s| && Rising(s, c) && Roomy(s, c, n, P)
    ensures |s| <= 3 * n
  {
    forall i | 0 <= i < c + 1
      ensures s[i].addr in P
    {
      assert s[i] in s;
      assert s[i].addr in Points(s);
    }
    DistinctStarts(s, c + 1, P);
  }

  /** What one iteration needs and keeps, all together. */
  lemma StepFacts(s: seq<Region>, c: nat, n: nat, P: set<int>)
    requires c + 1 < |s| && SortedFrom(s, c) && Rising(s, c) && Roomy(s, c, n, P)
    ensures var t := Step(s, c);
      && SortedFrom(t.s, t.c) && Rising(t.s, t.c) && Roomy(t.s, t.c, n, P)
      && Collapse(t.s, t.c) == Collapse(s, c) && |t.s| <= 3 * n
      && (TotalSize(t.s) < TotalSize(s) || (TotalSize(t.s) == TotalSize(s) && |t.s| - t.c < |s| - c))
  {
    StepProgress(s, c);
    StepSorted(s, c);
    StepRising(s, c);
    StepRoomy(s, c, n, P);
    StepFront(s, c);
    RoomEnough(Step(s, c).s, Step(s, c).c, n, P);
  }
}
