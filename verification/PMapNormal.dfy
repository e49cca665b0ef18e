/** fill_gaps and consolidate_neighbors, and the canonical form that normalization reaches. */
module PMapNormal {
  import opened Common
  import opened PMapRegions
  import opened PMapCollapse

  // ----- Filling gaps -----

  /** The list after the gap-filling scan, from position c on. */
  function Fill(s: seq<Region>, c: nat, typ: int): seq<Region>
    requires Disjoint(s)
    decreases |s| - c
  {
    if c + 1 >= |s| then s
    else
      var gap := s[c + 1].addr - s[c].End();
      if gap == 0 then Fill(s, c + 1, typ)
      else
        FillOneDisjoint(s, c, typ);
        Fill(FillOne(s, c, typ), if |FillOne(s, c, typ)| > |s| then c + 2 else c + 1, typ)
  }

  /** Closes the gap after region c: with a neighbour of the fill type, or with a new region. */
  function FillOne(s: seq<Region>, c: nat, typ: int): seq<Region>
    requires c + 1 < |s| && s[c].End() < s[c + 1].addr
  {
    var cr, nl := s[c].End(), s[c + 1].addr;
    if s[c].typ == typ then s[c := s[c].(size := s[c].size + (nl - cr))]
    else if s[c + 1].typ == typ then s[c + 1 := s[c + 1].(addr := cr, size := s[c + 1].size + (nl - cr))]
    else InsertAfter(s, c, Region(cr, nl - cr, typ, 0))
  }

  lemma InsertDisjoint(s: seq<Region>, c: nat, r: Region)
    requires Disjoint(s) && c + 1 < |s| && s[c].End() == r.addr && r.End() == s[c + 1].addr && r.size > 0
    ensures Disjoint(InsertAfter(s, c, r))
  {
    var t := InsertAfter(s, c, r);
    forall i | 0 <= i < |t| - 1
      ensures t[i].End() <= t[i + 1].addr
    {
      if i > c { assert t[i] == (if i == c + 1 then r else s[i - 1]) && t[i + 1] == s[i]; }
    }
  }

  /** A region that grows up to the next one, or down to the one before it, stays disjoint from them. */
  lemma UpdateDisjoint(s: seq<Region>, c: nat, r: Region)
    requires Disjoint(s) && c < |s| && r.size > 0
    requires (c > 0 ==> s[c - 1].End() <= r.addr) && (c + 1 < |s| ==> r.End() <= s[c + 1].addr)
    ensures Disjoint(s[c := r])
  {
    var t := s[c := r];
    forall i | 0 <= i < |t| - 1
      ensures t[i].End() <= t[i + 1].addr
    {
      assert s[i].End() <= s[i + 1].addr;
    }
  }

  /** The first region takes the gap. */
  lemma FirstTakes(s: seq<Region>, c: nat)
    requires Disjoint(s) && c + 1 < |s| && s[c].End() < s[c + 1].addr
    ensures Disjoint(s[c := s[c].(size := s[c].size + (s[c + 1].addr - s[c].End()))])
  {
    if c > 0 { assert s[c - 1].End() <= s[c].addr; }
    UpdateDisjoint(s, c, s[c].(size := s[c].size + (s[c + 1].addr - s[c].End())));
  }

  /** The second region takes the gap. */
  lemma SecondTakes(s: seq<Region>, c: nat)
    requires Disjoint(s) && c + 1 < |s| && s[c].End() < s[c + 1].addr
    ensures Disjoint(s[c + 1 := s[c + 1].(addr := s[c].End(), size := s[c + 1].size + (s[c + 1].addr - s[c].End()))])
  {
    if c + 2 < |s| { assert s[c + 1].End() <= s[c + 2].addr; }
    UpdateDisjoint(s, c + 1, s[c + 1].(addr := s[c].End(), size := s[c + 1].size + (s[c + 1].addr - s[c].End())));
  }

  lemma FillOneDisjoint(s: seq<Region>, c: nat, typ: int)
    requires Disjoint(s) && c + 1 < |s| && s[c].End() < s[c + 1].addr
    ensures Disjoint(FillOne(s, c, typ))
  {
    if s[c].typ == typ {
      FirstTakes(s, c);
    } else if s[c + 1].typ == typ {
      SecondTakes(s, c);
    } else {
      InsertDisjoint(s, c, Region(s[c].End(), s[c + 1].addr - s[c].End(), typ, 0));
    }
  }

  lemma FillOnePoints(s: seq<Region>, c: nat, typ: int)
    requires c + 1 < |s| && s[c].End() < s[c + 1].addr
    ensures Points(FillOne(s, c, typ)) <= Points(s)
  {
  }

  /** An address between two neighbouring disjoint regions is covered by none. */
  lemma GapUncovered(s: seq<Region>, c: nat, x: int)
    requires Disjoint(s) && c + 1 < |s| && s[c].End() <= x < s[c + 1].addr
    ensures TypeAt(s, x) == 0
  {
    TypeAtLeast(s, x);
    Ordered(s);
  }

  /** Disjoint regions in order: any earlier one ends before any later one starts. */
  lemma Ordered(s: seq<Region>)
    requires Disjoint(s)
    ensures forall i, j :: 0 <= i < j < |s| ==> s[i].End() <= s[j].addr
  {
    forall i, j | 0 <= i < j < |s|
      ensures s[i].End() <= s[j].addr
    {
      OrderedAt(s, i, j);
    }
  }

  lemma {:induction false} OrderedAt(s: seq<Region>, i: nat, j: nat)
    requires Disjoint(s) && i < j < |s|
    ensures s[i].End() <= s[j].addr
    decreases j - i
  {
    if i + 1 < j {
      OrderedAt(s, i + 1, j);
      assert s[i].End() <= s[i + 1].addr;
    }
  }

  /** The type of an address is that of the one region that covers it. */
  lemma TypeAtCovered(s: seq<Region>, i: nat, x: int)
    requires Disjoint(s) && Typed(s) && i < |s| && s[i].Covers(x)
    ensures TypeAt(s, x) == s[i].typ
  {
    Ordered(s);
    TypeAtLeast(s, x);
    forall j | 0 <= j < |s| && j != i
      ensures !s[j].Covers(x)
    {
    }
    assert TypeIn(s[i], x) == s[i].typ;
  }

  /** What closing the gap makes of the two regions around it. */
  function FillPair(cur: Region, next: Region, typ: int): seq<Region>
    requires cur.End() < next.addr
  {
    var cr, nl := cur.End(), next.addr;
    if cur.typ == typ then [cur.(size := cur.size + (nl - cr)), next]
    else if next.typ == typ then [cur, next.(addr := cr, size := next.size + (nl - cr))]
    else [cur, Region(cr, nl - cr, typ, 0), next]
  }

  lemma FillPairMeaning(cur: Region, next: Region, typ: int, x: int)
    requires cur.End() < next.addr && typ >= 1
    ensures TypeAt(FillPair(cur, next, typ), x) ==
      if cur.End() <= x < next.addr then Max(typ, TypeAt([cur, next], x)) else TypeAt([cur, next], x)
  {
    var M := FillPair(cur, next, typ);
    TypeAtTwo(cur, next, x);
    if |M| == 2 { TypeAtTwo(M[0], M[1], x); } else { TypeAtThree(M[0], M[1], M[2], x); }
  }

  lemma FillOneParts(s: seq<Region>, c: nat, typ: int)
    requires c + 1 < |s| && s[c].End() < s[c + 1].addr
    ensures FillOne(s, c, typ) == s[..c] + FillPair(s[c], s[c + 1], typ) + s[c + 2..]
  {
  }

  lemma FillOneMeaning(s: seq<Region>, c: nat, typ: int, x: int)
    requires Disjoint(s) && Typed(s) && c + 1 < |s| && s[c].End() < s[c + 1].addr && typ >= 1
    ensures TypeAt(FillOne(s, c, typ), x) ==
      if s[c].End() <= x < s[c + 1].addr then typ else TypeAt(s, x)
  {
    var cur, next := s[c], s[c + 1];
    if cur.End() <= x < next.addr { GapUncovered(s, c, x); }
    FillOneParts(s, c, typ);
    ThreeParts(s[..c], FillPair(cur, next, typ), s[c + 2..], x);
    FillPairMeaning(cur, next, typ, x);
    assert s == s[..c] + [cur, next] + s[c + 2..];
    ThreeParts(s[..c], [cur, next], s[c + 2..], x);
  }

  lemma ThreeParts(A: seq<Region>, M: seq<Region>, B: seq<Region>, x: int)
    ensures TypeAt(A + M + B, x) == Max(Max(TypeAt(A, x), TypeAt(M, x)), TypeAt(B, x))
    ensures TypeAt(A, x) >= 0 && TypeAt(M, x) >= 0 && TypeAt(B, x) >= 0
  {
    TypeAtConcat(A + M, B, x);
    TypeAtConcat(A, M, x);
    TypeAtConcat(M, B, x);
    TypeAtConcat(B, [], x);
  }

  /** No two neighbours from c on leave a gap. */
  ghost predicate GaplessTo(s: seq<Region>, c: int) {
    forall i :: 0 <= i < c && i < |s| - 1 ==> s[i].End() == s[i + 1].addr
  }

  ghost predicate Gapless(s: seq<Region>) {
    GaplessTo(s, |s|)
  }

  /** The number of gaps from region c on. */
  function Gaps(s: seq<Region>, c: nat): nat
    decreases |s| - c
  {
    if c + 1 >= |s| then 0 else (if s[c].End() == s[c + 1].addr then 0 else 1) + Gaps(s, c + 1)
  }

  lemma {:induction false} GapsNext(s: seq<Region>, c: nat)
    requires c + 1 < |s|
    ensures Gaps(s, c + 1) <= Gaps(s, c)
  {
  }

  lemma {:induction false} GapsSame(s: seq<Region>, t: seq<Region>, c: nat, d: int)
    requires |t| == |s| + d && c < |s| && 0 <= c + d
    requires forall i :: c < i < |s| ==> t[i + d] == s[i]
    requires t[c + d].End() == s[c].End()
    ensures Gaps(t, c + d) == Gaps(s, c)
    decreases |s| - c
  {
    if c + 1 < |s| {
      assert t[c + 1 + d] == s[c + 1];
      GapsSame(s, t, c + 1, d);
    }
  }

  /** Closing a gap leaves one gap less. */
  lemma FillOneGaps(s: seq<Region>, c: nat, typ: int)
    requires c + 1 < |s| && s[c].End() < s[c + 1].addr
    ensures Gaps(FillOne(s, c, typ), c) < Gaps(s, c)
  {
    var t := FillOne(s, c, typ);
    var d := |t| - |s|;
    assert forall i :: c + 1 < i < |s| ==> t[i + d] == s[i];
    assert t[c + 1 + d].End() == s[c + 1].End();
    GapsSame(s, t, c + 1, d);
    GapsNext(s, c);
    FillOneClosed(s, c, typ);
    GapsNext(t, c);
    if d == 1 { GapsNext(t, c + 1); }
  }

  /** The gap is gone. */
  lemma FillOneClosed(s: seq<Region>, c: nat, typ: int)
    requires c + 1 < |s| && s[c].End() < s[c + 1].addr
    ensures var t := FillOne(s, c, typ);
      && t[c].End() == t[c + 1].addr
      && (|t| == |s| || (|t| == |s| + 1 && t[c + 1].End() == t[c + 2].addr))
  {
  }

  /** The scan that closes gaps goes on from the same position. */
  lemma FillOneStep(s: seq<Region>, c: nat, typ: int)
    requires Disjoint(s) && c + 1 < |s| && s[c].End() < s[c + 1].addr
    ensures Fill(FillOne(s, c, typ), c, typ) == Fill(s, c, typ)
  {
  }

  /** Disjoint regions are fewer than their endpoints. */
  lemma DisjointFew(s: seq<Region>, P: set<int>)
    requires Disjoint(s) && Points(s) <= P
    ensures s == [] || |s| < |P|
  {
    if s != [] {
      var last := s[|s| - 1];
      Ordered(s);
      forall i | 0 <= i < |s|
        ensures s[i].addr in P - {last.End()}
      {
        assert s[i] in s && s[i].addr in Points(s);
      }
      forall i | 0 <= i < |s| - 1
        ensures s[i].addr < s[i + 1].addr
      {
        assert s[i].End() <= s[i + 1].addr;
      }
      DistinctStarts(s, |s|, P - {last.End()});
      assert last in s && last.End() in Points(s);
    }
  }

  /** There is room for closing a gap. */
  lemma FillOneFits(s: seq<Region>, c: nat, typ: int, P: set<int>)
    requires Disjoint(s) && Typed(s) && typ >= 1 && Points(s) <= P && c + 1 < |s| && s[c].End() < s[c + 1].addr
    ensures var t := FillOne(s, c, typ); Disjoint(t) && Typed(t) && Points(t) <= P
    ensures |s| + 1 < |P|
  {
    FillOneDisjoint(s, c, typ);
    FillOnePoints(s, c, typ);
    assert Typed(FillOne(s, c, typ));
    var other := s[c].typ + s[c + 1].typ;   // a type neither neighbour has, so that a region is inserted
    FillOneDisjoint(s, c, other);
    FillOnePoints(s, c, other);
    DisjointFew(FillOne(s, c, other), P);
  }

  /** What the loop that closes gaps keeps; `all` is what it is to reach. */
  ghost predicate Filling(s: seq<Region>, c: nat, typ: int, P: set<int>, all: seq<Region>) {
    && Disjoint(s) && Typed(s) && typ >= 1 && Points(s) <= P && c <= |s|
    && Fill(s, c, typ) == all
  }

  /** One round of the loop. */
  lemma FillRound(s: seq<Region>, c: nat, typ: int, P: set<int>, all: seq<Region>)
    requires Filling(s, c, typ, P, all) && c + 1 < |s|
    ensures s[c].End() <= s[c + 1].addr
    ensures if s[c].End() == s[c + 1].addr then Filling(s, c + 1, typ, P, all) && Gaps(s, c + 1) <= Gaps(s, c)
      else
        && |s| + 1 < |P| && Filling(FillOne(s, c, typ), c, typ, P, all)
        && Gaps(FillOne(s, c, typ), c) < Gaps(s, c)
  {
    GapsNext(s, c);
    assert s[c].End() <= s[c + 1].addr;
    if s[c].End() != s[c + 1].addr {
      FillOneFits(s, c, typ, P);
      FillOneGaps(s, c, typ);
      FillOneStep(s, c, typ);
    }
  }

  /** Between the start of the first region and the end of the last. */
  ghost predicate Hull(s: seq<Region>, x: int) {
    s != [] && s[0].addr <= x < s[|s| - 1].End()
  }

  lemma OutsideHull(s: seq<Region>, x: int)
    requires Disjoint(s) && !Hull(s, x)
    ensures TypeAt(s, x) == 0
  {
    TypeAtLeast(s, x);
    Ordered(s);
  }

  lemma {:induction false} GaplessCovered(s: seq<Region>, x: int)
    requires Gapless(s) && Typed(s) && NonEmpty(s) && Hull(s, x)
    ensures TypeAt(s, x) >= 1
  {
    TypeAtLeast(s[1..], x);
    if !s[0].Covers(x) {
      var t := s[1..];
      if |s| > 1 { assert s[0].End() == s[1].addr; }
      forall i | 0 <= i < |t| - 1 ensures t[i].End() == t[i + 1].addr { assert s[i + 1].End() == s[i + 2].addr; }
      GaplessCovered(t, x);
    }
  }

  /** Filling gives the type to what lies between regions, and changes nothing else. */
  lemma {:induction false} FillMeaning(s: seq<Region>, c: nat, typ: int, x: int)
    requires Disjoint(s) && Typed(s) && typ >= 1 && GaplessTo(s, c)
    ensures TypeAt(Fill(s, c, typ), x) == if TypeAt(s, x) > 0 then TypeAt(s, x) else if Hull(s, x) then typ else 0
    decreases |s| - c
  {
    if c + 1 >= |s| {
      if Hull(s, x) { GaplessCovered(s, x); } else { OutsideHull(s, x); }
    } else if s[c].End() == s[c + 1].addr {
      FillMeaning(s, c + 1, typ, x);
    } else {
      assert s[c].End() <= s[c + 1].addr;
      var t := FillOne(s, c, typ);
      FillOneDisjoint(s, c, typ);
      FillOneMeaning(s, c, typ, x);
      TypeAtLeast(s, x);
      assert s[0].addr <= s[c].addr <= s[c + 1].End() <= s[|s| - 1].End() by { Ordered(s); }
      FillOneKeeps(s, c, typ);
      if s[c].End() <= x < s[c + 1].addr { GapUncovered(s, c, x); }
      FillMeaning(t, if |t| > |s| then c + 2 else c + 1, typ, x);
    }
  }

  lemma FillOneKeeps(s: seq<Region>, c: nat, typ: int)
    requires Disjoint(s) && Typed(s) && typ >= 1 && GaplessTo(s, c) && c + 1 < |s| && s[c].End() < s[c + 1].addr
    ensures var t := FillOne(s, c, typ);
      && Typed(t) && GaplessTo(t, if |t| > |s| then c + 2 else c + 1)
      && t[0].addr == s[0].addr && t[|t| - 1].End() == s[|s| - 1].End()
  {
    var t := FillOne(s, c, typ);
    if |t| > |s| {
      assert forall i :: c + 2 <= i < |t| ==> t[i] == s[i - 1];
      assert t[c + 1].typ == typ;
    }
    forall i | 0 <= i < c
      ensures t[i].End() == t[i + 1].addr
    {
      assert s[i].End() == s[i + 1].addr;
    }
  }

  lemma {:induction false} FillGapless(s: seq<Region>, c: nat, typ: int)
    requires Disjoint(s) && Typed(s) && typ >= 1 && GaplessTo(s, c)
    ensures var t := Fill(s, c, typ); Disjoint(t) && Typed(t) && Gapless(t) && Points(t) <= Points(s)
    decreases |s| - c
  {
    if c + 1 < |s| {
      if s[c].End() == s[c + 1].addr {
        FillGapless(s, c + 1, typ);
      } else {
        assert s[c].End() <= s[c + 1].addr;
        FillOneDisjoint(s, c, typ);
        FillOnePoints(s, c, typ);
        FillOneKeeps(s, c, typ);
        var t := FillOne(s, c, typ);
        FillGapless(t, if |t| > |s| then c + 2 else c + 1, typ);
      }
    }
  }

  // ----- Merging neighbours of the same type -----

  function MergeOne(s: seq<Region>, c: nat): (t: seq<Region>)
    requires c + 1 < |s|
    ensures |t| == |s| - 1
  {
    Delete(s[c := s[c].(size := s[c].size + s[c + 1].size)], c + 1)
  }

  /** The list after the merging scan, from position c on. */
  function Merge(s: seq<Region>, c: nat): seq<Region>
    decreases |s| - c
  {
    if c + 1 >= |s| then s
    else if s[c].typ == s[c + 1].typ then Merge(MergeOne(s, c), c)
    else Merge(s, c + 1)
  }

  /** Neighbours before c have different types. */
  ghost predicate VariedTo(s: seq<Region>, c: int) {
    forall i :: 0 <= i < c && i < |s| - 1 ==> s[i].typ != s[i + 1].typ
  }

  /** A gapless list of non-empty regions in which neighbours have different types. */
  ghost predicate Canonical(s: seq<Region>) {
    NonEmpty(s) && Typed(s) && Gapless(s) && VariedTo(s, |s|)
  }

  lemma MergeOneKeeps(s: seq<Region>, c: nat)
    requires NonEmpty(s) && Typed(s) && Gapless(s) && VariedTo(s, c) && c + 1 < |s| && s[c].typ == s[c + 1].typ
    ensures var t := MergeOne(s, c); NonEmpty(t) && Typed(t) && Gapless(t) && VariedTo(t, c)
  {
  }

  lemma MergeOneMeaning(s: seq<Region>, c: nat, x: int)
    requires c + 1 < |s| && s[c].End() == s[c + 1].addr && s[c].typ == s[c + 1].typ
    ensures TypeAt(MergeOne(s, c), x) == TypeAt(s, x)
  {
    var A, B := s[..c], s[c + 2..];
    var m := s[c].(size := s[c].size + s[c + 1].size);
    assert s == A + [s[c], s[c + 1]] + B;
    assert MergeOne(s, c) == A + [m] + B;
    ThreeParts(A, [s[c], s[c + 1]], B, x);
    ThreeParts(A, [m], B, x);
    TypeAtTwo(s[c], s[c + 1], x);
    TypeAtOne(m, x);
  }

  /** Merging reaches the canonical form and keeps the meaning. */
  lemma {:induction false} MergeCanonical(s: seq<Region>, c: nat, x: int)
    requires NonEmpty(s) && Typed(s) && Gapless(s) && VariedTo(s, c)
    ensures Canonical(Merge(s, c)) && TypeAt(Merge(s, c), x) == TypeAt(s, x)
    decreases |s| - c
  {
    if c + 1 < |s| {
      if s[c].typ == s[c + 1].typ {
        assert s[c].End() == s[c + 1].addr;
        MergeOneKeeps(s, c);
        MergeOneMeaning(s, c, x);
        MergeCanonical(MergeOne(s, c), c, x);
      } else {
        MergeCanonical(s, c + 1, x);
      }
    }
  }

  lemma MergeOnePoints(s: seq<Region>, c: nat)
    requires c + 1 < |s| && s[c].End() == s[c + 1].addr
    ensures Points(MergeOne(s, c)) <= Points(s)
  {
    var t := MergeOne(s, c);
    assert s[c] in s && s[c + 1] in s;
    forall q | q in t
      ensures q.addr in Points(s) && q.End() in Points(s)
    {
      var i :| 0 <= i < |t| && t[i] == q;
      if i < c { assert q == s[i]; }
      if i > c { assert q == s[i + 1]; }
    }
  }

  lemma {:induction false} MergePoints(s: seq<Region>, c: nat)
    requires NonEmpty(s) && Typed(s) && Gapless(s) && VariedTo(s, c)
    ensures Points(Merge(s, c)) <= Points(s)
    decreases |s| - c
  {
    if c + 1 < |s| {
      if s[c].typ == s[c + 1].typ {
        assert s[c].End() == s[c + 1].addr;
        MergeOneKeeps(s, c);
        MergeOnePoints(s, c);
        MergePoints(MergeOne(s, c), c);
      } else {
        MergePoints(s, c + 1);
      }
    }
  }

  // ----- The canonical form -----

  /** Some region covers an address at or before x. */
  ghost predicate StartedBy(s: seq<Region>, x: int) {
    exists y :: y <= x && TypeAt(s, y) > 0
  }

  ghost predicate StillAhead(s: seq<Region>, x: int) {
    exists z :: x <= z && TypeAt(s, z) > 0
  }

  /** Some region covers an address at or before x, and some region one at or after x. */
  ghost predicate Between(s: seq<Region>, x: int) {
    StartedBy(s, x) && StillAhead(s, x)
  }

  /** What normalizing a list makes of an address: the gaps are reserved. */
  ghost function NormalType(s: seq<Region>, x: int): int {
    if TypeAt(s, x) > 0 then TypeAt(s, x) else if Between(s, x) then RESERVED else 0
  }

  /** t is a normal form of s. */
  ghost predicate IsNormalOf(t: seq<Region>, s: seq<Region>) {
    Canonical(t) && forall x :: TypeAt(t, x) == NormalType(s, x)
  }

  /** Covered addresses lie at or before x if some region that is not empty starts there, and at or after x if one ends
      after x. */
  lemma StartedMeans(s: seq<Region>, x: int)
    requires Typed(s)
    ensures StartedBy(s, x) <==> exists r :: r in s && r.size > 0 && r.addr <= x
    ensures StillAhead(s, x) <==> exists r :: r in s && r.size > 0 && x < r.End()
  {
    if StartedBy(s, x) {
      var y :| y <= x && TypeAt(s, y) > 0;
      var r := CoveringRegion(s, y);
      assert r in s && r.size > 0 && r.addr <= x;
    }
    if StillAhead(s, x) {
      var z :| x <= z && TypeAt(s, z) > 0;
      var r := CoveringRegion(s, z);
      assert r in s && r.size > 0 && x < r.End();
    }
    if r :| r in s && r.size > 0 && r.addr <= x { RegionTyped(s, r, r.addr); }
    if r :| r in s && r.size > 0 && x < r.End() { RegionTyped(s, r, r.End() - 1); }
  }

  lemma CoveringRegion(s: seq<Region>, x: int) returns (r: Region)
    requires TypeAt(s, x) > 0
    ensures r in s && r.Covers(x) && r.typ == TypeAt(s, x)
  {
    TypeAtLeast(s, x);
    var i :| 0 <= i < |s| && TypeIn(s[i], x) == TypeAt(s, x);
    r := s[i];
  }

  lemma RegionTyped(s: seq<Region>, r: Region, x: int)
    requires Typed(s) && r in s && r.Covers(x)
    ensures TypeAt(s, x) >= r.typ > 0
  {
    TypeAtLeast(s, x);
    var i :| 0 <= i < |s| && s[i] == r;
    assert TypeIn(s[i], x) == r.typ;
  }

  /** The normal form in terms of the regions themselves: an address that some cover has the highest of their types; one
      that none covers has type 2 if there are regions on both sides of it, and none otherwise. */
  lemma NormalMeans(t: seq<Region>, s: seq<Region>, x: int)
    requires IsNormalOf(t, s) && Typed(s)
    ensures forall r :: r in s && r.Covers(x) ==> r.typ <= TypeAt(t, x)
    ensures (exists r :: r in s && r.Covers(x)) ==> exists r :: r in s && r.Covers(x) && r.typ == TypeAt(t, x)
    ensures !(exists r :: r in s && r.Covers(x)) ==>
      var between := (exists r :: r in s && r.size > 0 && r.addr <= x)
        && (exists r :: r in s && r.size > 0 && x < r.End());
      TypeAt(t, x) == if between then 2 else 0
  {
    StartedMeans(s, x);
    TypeAtLeast(s, x);
    if TypeAt(s, x) > 0 {
      var r := CoveringRegion(s, x);
      assert r in s && r.Covers(x) && r.typ == TypeAt(t, x);
    }
    forall r | r in s && r.Covers(x)
      ensures r.typ <= TypeAt(t, x) && TypeAt(s, x) > 0
    {
      RegionTyped(s, r, x);
    }
  }

  lemma HullBetween(s: seq<Region>, x: int)
    requires Disjoint(s) && Typed(s)
    ensures Hull(s, x) <==> Between(s, x)
  {
    if s != [] {
      Ordered(s);
      TypeAtLeast(s, s[0].addr);
      TypeAtLeast(s, s[|s| - 1].End() - 1);
      assert TypeIn(s[0], s[0].addr) >= 1;
      assert TypeIn(s[|s| - 1], s[|s| - 1].End() - 1) >= 1;
    }
    if Between(s, x) {
      var y :| y <= x && TypeAt(s, y) > 0;
      var z :| x <= z && TypeAt(s, z) > 0;
      if !Hull(s, y) { OutsideHull(s, y); }
      if !Hull(s, z) { OutsideHull(s, z); }
    }
  }

  lemma BetweenSame(s: seq<Region>, t: seq<Region>, x: int)
    requires SameMap(s, t)
    ensures Between(s, x) == Between(t, x) && NormalType(s, x) == NormalType(t, x)
  {
  }

  /** The list that normalization makes of a sorted one. */
  function Normalized(s: seq<Region>): seq<Region>
    requires SortedFrom(s, 0) && Disjoint(Collapse(s, 0))
  {
    Merge(Fill(Collapse(s, 0), 0, RESERVED), 0)
  }

  /** Normalizing sorted regions gives their normal form, if the scan is smooth. */
  lemma NormalizedRight(s: seq<Region>)
    requires SortedFrom(s, 0) && Smooth(s, 0) && Typed(s)
    ensures Disjoint(Collapse(s, 0)) && IsNormalOf(Normalized(s), s)
    ensures Points(Fill(Collapse(s, 0), 0, RESERVED)) <= Points(s)
  {
    CollapseDisjoint(s, 0);
    var d := Collapse(s, 0);
    var f := Fill(d, 0, RESERVED);
    FillGapless(d, 0, RESERVED);
    forall x
      ensures TypeAt(s, x) == TypeAt(d, x)
    {
      CollapseMeaning(s, 0, x);
    }
    forall x
      ensures Canonical(Merge(f, 0)) && TypeAt(Merge(f, 0), x) == NormalType(s, x)
    {
      MergeCanonical(f, 0, x);
      FillMeaning(d, 0, RESERVED, x);
      HullBetween(d, x);
      BetweenSame(s, d, x);
      TypeAtLeast(d, x);
    }
    MergeCanonical(f, 0, 0);
  }

  /** Equal lists, except perhaps for the flags. */
  ghost predicate SameRegions(s: seq<Region>, t: seq<Region>) {
    && |s| == |t|
    && forall i :: 0 <= i < |s| ==> s[i].addr == t[i].addr && s[i].size == t[i].size && s[i].typ == t[i].typ
  }

  lemma CanonicalIsDisjoint(s: seq<Region>)
    requires Canonical(s)
    ensures Disjoint(s)
  {
  }

  lemma CanonicalTail(s: seq<Region>)
    requires Canonical(s) && s != []
    ensures Canonical(s[1..])
  {
  }

  /** In a canonical list the first region alone decides up to its end, and the rest from there on. */
  lemma CanonicalHead(s: seq<Region>, x: int)
    requires Canonical(s) && s != []
    ensures x < s[0].addr ==> TypeAt(s, x) == 0
    ensures s[0].Covers(x) ==> TypeAt(s, x) == s[0].typ && TypeAt(s[1..], x) == 0
    ensures s[0].End() <= x ==> TypeAt(s, x) == TypeAt(s[1..], x)
    ensures x < s[0].End() ==> TypeAt(s[1..], x) == 0
    ensures x == s[0].End() ==> TypeAt(s, x) != s[0].typ
  {
  }

  lemma FirstOnly(s: seq<Region>)
    requires Canonical(s) && s != []
    ensures TypeAt(s, s[0].addr) == s[0].typ
  {
    CanonicalTail(s);
    if s[1..] != [] { assert s[0].End() == s[1].addr; }
    OutsideHull(s[1..], s[0].addr);
  }

  /** The canonical form is unique: two canonical lists that say the same are the same, up to flags. */
  lemma {:induction false} CanonicalUnique(s: seq<Region>, t: seq<Region>)
    requires Canonical(s) && Canonical(t) && SameMap(s, t)
    ensures SameRegions(s, t)
  {
    if s == [] || t == [] {
      if s != [] { FirstOnly(s); }
      if t != [] { FirstOnly(t); }
    } else {
      SameHeads(s, t);
      CanonicalTail(s);
      CanonicalTail(t);
      forall x
        ensures TypeAt(s[1..], x) == TypeAt(t[1..], x)
      {
        CanonicalHead(s, x);
        CanonicalHead(t, x);
      }
      CanonicalUnique(s[1..], t[1..]);
      assert forall i :: 1 <= i < |s| ==> s[i] == s[1..][i - 1];
      assert forall i :: 1 <= i < |t| ==> t[i] == t[1..][i - 1];
    }
  }

  lemma SameHeads(s: seq<Region>, t: seq<Region>)
    requires Canonical(s) && Canonical(t) && SameMap(s, t) && s != [] && t != []
    ensures s[0].addr == t[0].addr && s[0].size == t[0].size && s[0].typ == t[0].typ
  {
    FirstOnly(s);
    FirstOnly(t);
    CanonicalHead(s, t[0].addr);
    CanonicalHead(t, s[0].addr);
    CanonicalHead(s, t[0].End());
    CanonicalHead(t, t[0].End());
    CanonicalHead(s, s[0].End());
    CanonicalHead(t, s[0].End());
  }

  /** Normalizing again changes nothing. */
  lemma NormalAgain(s: seq<Region>, t: seq<Region>, u: seq<Region>)
    requires IsNormalOf(t, s) && IsNormalOf(u, t)
    ensures SameRegions(t, u)
  {
    forall x
      ensures TypeAt(u, x) == TypeAt(t, x)
    {
      TypeAtLeast(t, x);
      HullBetween(t, x);
      if Hull(t, x) { GaplessCovered(t, x); }
    }
    CanonicalUnique(t, u);
  }

  // ----- Adding regions one at a time -----

  lemma AddedTypes(a: seq<Region>, u: seq<Region>, r: Region, y: int)
    requires IsNormalOf(a, u) && r.typ >= 1
    ensures TypeAt(a + [r], y) == Max(NormalType(u, y), TypeIn(r, y))
    ensures TypeAt(u + [r], y) == Max(TypeAt(u, y), TypeIn(r, y))
  {
    TypeAtConcat(a, [r], y);
    TypeAtConcat(u, [r], y);
    TypeAtOne(r, y);
  }

  lemma StartedAdded(a: seq<Region>, u: seq<Region>, r: Region, x: int)
    requires IsNormalOf(a, u) && r.typ >= 1
    ensures StartedBy(a + [r], x) == StartedBy(u + [r], x)
  {
    if StartedBy(a + [r], x) {
      var y :| y <= x && TypeAt(a + [r], y) > 0;
      AddedTypes(a, u, r, y);
      if TypeAt(u + [r], y) <= 0 {
        var y' :| y' <= y && TypeAt(u, y') > 0;
        AddedTypes(a, u, r, y');
      }
    }
    if StartedBy(u + [r], x) {
      var y :| y <= x && TypeAt(u + [r], y) > 0;
      AddedTypes(a, u, r, y);
    }
  }

  lemma AheadAdded(a: seq<Region>, u: seq<Region>, r: Region, x: int)
    requires IsNormalOf(a, u) && r.typ >= 1
    ensures StillAhead(a + [r], x) == StillAhead(u + [r], x)
  {
    if StillAhead(a + [r], x) {
      var z :| x <= z && TypeAt(a + [r], z) > 0;
      AddedTypes(a, u, r, z);
      if TypeAt(u + [r], z) <= 0 {
        var z' :| z <= z' && TypeAt(u, z') > 0;
        AddedTypes(a, u, r, z');
      }
    }
    if StillAhead(u + [r], x) {
      var z :| x <= z && TypeAt(u + [r], z) > 0;
      AddedTypes(a, u, r, z);
    }
  }

  /** Whether an address lies between covered ones is the same after filling the gaps. */
  lemma BetweenAdded(a: seq<Region>, u: seq<Region>, r: Region, x: int)
    requires IsNormalOf(a, u) && r.typ >= 1
    ensures Between(a + [r], x) == Between(u + [r], x)
  {
    StartedAdded(a, u, r, x);
    AheadAdded(a, u, r, x);
  }

  lemma BetweenMore(u: seq<Region>, r: Region, x: int)
    requires Between(u, x) && r.typ >= 1
    ensures Between(u + [r], x)
  {
    var y :| y <= x && TypeAt(u, y) > 0;
    var z :| x <= z && TypeAt(u, z) > 0;
    TypeAtConcat(u, [r], y);
    TypeAtConcat(u, [r], z);
    assert TypeAt(u + [r], y) > 0 && TypeAt(u + [r], z) > 0;
  }

  /** No region covers the address, but it lies between covered ones: normalization reserves it. */
  ghost predicate Gap(s: seq<Region>, x: int) {
    TypeAt(s, x) == 0 && Between(s, x)
  }

  /** The region is usable and covers an address that was reserved as a gap. */
  ghost predicate FallsInGap(s: seq<Region>, r: Region, x: int) {
    r.typ < RESERVED && r.Covers(x) && Gap(s, x)
  }

  ghost predicate MissesGaps(s: seq<Region>, r: Region) {
    forall x :: !FallsInGap(s, r, x)
  }

  /** What adding a region to a normal form makes of an address: a gap stays reserved under a usable region. */
  lemma AddedType(u: seq<Region>, a: seq<Region>, r: Region, b: seq<Region>, x: int)
    requires IsNormalOf(a, u) && IsNormalOf(b, a + [r]) && r.typ >= 1
    ensures TypeAt(b, x) == if FallsInGap(u, r, x) then RESERVED else NormalType(u + [r], x)
    ensures FallsInGap(u, r, x) ==> NormalType(u + [r], x) == USABLE
  {
    BetweenAdded(a, u, r, x);
    TypeAtConcat(a, [r], x);
    TypeAtConcat(u, [r], x);
    TypeAtOne(r, x);
    if Between(u, x) { BetweenMore(u, r, x); }
  }

  /** Adding a region to a normal form is adding it to the original list, unless it is usable and falls in a gap. */
  lemma AddToNormal(u: seq<Region>, a: seq<Region>, r: Region, b: seq<Region>)
    requires IsNormalOf(a, u) && IsNormalOf(b, a + [r]) && r.typ >= 1
    ensures IsNormalOf(b, u + [r]) <==> MissesGaps(u, r)
  {
    forall x
      ensures TypeAt(b, x) == NormalType(u + [r], x) <==> !FallsInGap(u, r, x)
    {
      AddedType(u, a, r, b, x);
    }
  }

  /** The tables while the regions of rs are added one by one. */
  ghost predicate IsAddRun(tables: seq<seq<Region>>, rs: seq<Region>) {
    |tables| == |rs| + 1 && forall i :: 0 <= i < |rs| ==> IsNormalOf(tables[i + 1], tables[i] + [rs[i]])
  }

  /** Over any run of additions the table is the normal form of all that was ever added, as long as no usable region
      falls in a gap. */
  lemma {:induction false} AddRunNormal(u: seq<Region>, tables: seq<seq<Region>>, rs: seq<Region>, n: nat)
    requires IsAddRun(tables, rs) && IsNormalOf(tables[0], u) && n <= |rs|
    requires forall i :: 0 <= i < n ==> rs[i].typ >= 1 && MissesGaps(u + rs[..i], rs[i])
    ensures IsNormalOf(tables[n], u + rs[..n])
  {
    if n == 0 {
      assert u + rs[..0] == u;
    } else {
      AddRunNormal(u, tables, rs, n - 1);
      AddToNormal(u + rs[..n - 1], tables[n - 1], rs[n - 1], tables[n]);
      assert u + rs[..n - 1] + [rs[n - 1]] == u + rs[..n];
    }
  }

  lemma {:induction false} SameRegionsSameMap(s: seq<Region>, t: seq<Region>, x: int)
    requires SameRegions(s, t)
    ensures TypeAt(s, x) == TypeAt(t, x)
  {
    if s != [] { SameRegionsSameMap(s[1..], t[1..], x); }
  }

  lemma EitherOrder(u: seq<Region>, r1: Region, r2: Region, x: int)
    ensures NormalType(u + [r1] + [r2], x) == NormalType(u + [r2] + [r1], x)
  {
    var s, t := u + [r1] + [r2], u + [r2] + [r1];
    forall y
      ensures TypeAt(s, y) == TypeAt(t, y)
    {
      assert multiset(s) == multiset(t);
      TypeAtPermuted(s, t, y);
    }
    BetweenSame(s, t, x);
  }

  /** A region that covers an address leaves no gap there. */
  lemma NotBothInGaps(u: seq<Region>, r1: Region, r2: Region, x: int)
    requires FallsInGap(u + [r1], r2, x) && r1.typ >= 1
    ensures !r1.Covers(x)
  {
    TypeAtConcat(u, [r1], x);
    TypeAtOne(r1, x);
  }

  /** The two orders of adding give an address the same type, unless one of the regions falls in a gap there that
      the other, added first, left. */
  lemma OrdersAt(u: seq<Region>, r1: Region, r2: Region,
                 a1: seq<Region>, a2: seq<Region>, b1: seq<Region>, b2: seq<Region>, x: int)
    requires r1.typ >= 1 && r2.typ >= 1
    requires IsNormalOf(a1, u + [r1]) && IsNormalOf(a2, a1 + [r2])
    requires IsNormalOf(b1, u + [r2]) && IsNormalOf(b2, b1 + [r1])
    ensures TypeAt(a2, x) == TypeAt(b2, x) <==> !FallsInGap(u + [r1], r2, x) && !FallsInGap(u + [r2], r1, x)
  {
    AddedType(u + [r1], a1, r2, a2, x);
    AddedType(u + [r2], b1, r1, b2, x);
    EitherOrder(u, r1, r2, x);
    if FallsInGap(u + [r1], r2, x) { NotBothInGaps(u, r1, r2, x); }
  }

  /** Two regions can be added in either order if and only if neither is usable and falls in a gap that adding the
      other one first leaves. */
  lemma AddInAnyOrder(u: seq<Region>, r1: Region, r2: Region,
                      a1: seq<Region>, a2: seq<Region>, b1: seq<Region>, b2: seq<Region>)
    requires r1.typ >= 1 && r2.typ >= 1
    requires IsNormalOf(a1, u + [r1]) && IsNormalOf(a2, a1 + [r2])
    requires IsNormalOf(b1, u + [r2]) && IsNormalOf(b2, b1 + [r1])
    ensures SameRegions(a2, b2) <==> MissesGaps(u + [r1], r2) && MissesGaps(u + [r2], r1)
  {
    forall x
      ensures TypeAt(a2, x) == TypeAt(b2, x) <==> !FallsInGap(u + [r1], r2, x) && !FallsInGap(u + [r2], r1, x)
    {
      OrdersAt(u, r1, r2, a1, a2, b1, b2, x);
    }
    if MissesGaps(u + [r1], r2) && MissesGaps(u + [r2], r1) {
      CanonicalUnique(a2, b2);
    } else if SameRegions(a2, b2) {
      var x :| FallsInGap(u + [r1], r2, x) || FallsInGap(u + [r2], r1, x);
      SameRegionsSameMap(a2, b2, x);
    }
  }

  /** With a usable region the order can matter: added last, it does not free what was reserved as a gap. */
  lemma UsableOrderMatters(a1: seq<Region>, a2: seq<Region>, b1: seq<Region>, b2: seq<Region>)
    requires var u, r1, r2 := [Region(0, 10, USABLE, 0)], Region(20, 10, 3, 0), Region(12, 4, USABLE, 0);
      && IsNormalOf(a1, u + [r1]) && IsNormalOf(a2, a1 + [r2])
      && IsNormalOf(b1, u + [r2]) && IsNormalOf(b2, b1 + [r1])
    ensures TypeAt(a2, 13) == RESERVED && TypeAt(b2, 13) == USABLE
  {
    var u, r1, r2 := [Region(0, 10, USABLE, 0)], Region(20, 10, 3, 0), Region(12, 4, USABLE, 0);
    TypeAtTwo(u[0], r1, 0);
    TypeAtTwo(u[0], r1, 13);
    TypeAtTwo(u[0], r1, 20);
    TypeAtTwo(u[0], r2, 13);
    assert u + [r1] == [u[0], r1] && u + [r2] == [u[0], r2];
    assert Between(u + [r1], 13);
    TypeAtConcat(a1, [r2], 13);
    TypeAtOne(r2, 13);
    TypeAtConcat(b1, [r1], 13);
    TypeAtOne(r1, 13);
  }

  /** The least bound on the usable addresses. */
  ghost predicate IsUsableEnd(s: seq<Region>, end: nat) {
    && (forall x :: TypeAt(s, x) == USABLE ==> x < end)
    && (end == 0 || TypeAt(s, end - 1) == USABLE)
  }
}
