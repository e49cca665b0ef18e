/** The physical memory map: a table of regions, normalized in place. */
module PMap {
  import opened PMapRegions
  import opened PMapCollapse
  import opened PMapNormal
  import QSort

  class PMap {
    const region: array<Region>
    var count: nat
    var lastUsable: nat
    var initialized: bool

    /** The table as the boot code left it. */
    constructor (table: array<Region>, n: nat)
      requires n < table.Length
      ensures region == table && count == n && !initialized && lastUsable == 0
    {
      region := table;
      count := n;
      initialized := false;
      lastUsable := 0;
    }

    /** The table holds count records; one slot more is needed because collapse moves one record too many. */
    ghost predicate Fits() reads this {
      count < region.Length
    }

    ghost function Live(): seq<Region>
      requires Fits()
      reads this, region
    {
      region[..count]
    }

    /** Removes record i and moves the later ones, and one record past the end, down. */
    method Remove(i: nat)
      requires Fits() && i < count
      modifies this`count, region
      ensures Fits() && Live() == Delete(old(Live()), i)
    {
      if i + 1 < count {
        forall k | i <= k < count { region[k] := region[k + 1]; }
      }
      count := count - 1;
      assert region[..count] == Delete(old(region[..count]), i);
    }

    /** Makes room for a record after record i. */
    method OpenAfter(i: nat)
      requires i < count && count + 1 < region.Length
      modifies this`count, region
      ensures Fits() && count == old(count) + 1
      ensures forall k :: 0 <= k <= i ==> region[k] == old(region[k])
      ensures forall r :: Live()[i + 1 := r] == InsertAfter(old(region[..count]), i, r)
    {
      if i + 1 < count {
        forall k | i + 1 <= k < count { region[k + 1] := region[k]; }
      }
      count := count + 1;
      forall r
        ensures region[..count][i + 1 := r] == InsertAfter(old(region[..count]), i, r)
      {
      }
    }

    /** Moves record i up past every record that is not after it. */
    method ResortAt(i: nat)
      requires Fits() && i < count
      modifies region
      ensures Live() == Resort(old(Live()), i)
    {
      var r := i;
      while r + 1 < count
        invariant r < count
        invariant Resort(region[..count], r) == Resort(old(region[..count]), i)
      {
        if Cmp(region[r], region[r + 1]) < 0 { break; }
        ghost var s := region[..count];
        region[r], region[r + 1] := region[r + 1], region[r];
        assert region[..count] == s[r := s[r + 1]][r + 1 := s[r]];
        r := r + 1;
      }
    }

    /** One iteration of collapse_overlaps. */
    method StepAt(curr: nat) returns (c: nat)
      requires Fits() && curr + 1 < count && SortedFrom(Live(), curr)
      requires |Step(Live(), curr).s| < region.Length
      modifies this`count, region
      ensures Fits() && Scan(Live(), c) == Step(old(Live()), curr)
    {
      StepShape(Live(), curr);
      if region[curr].size == 0 {
        Remove(curr);
        return curr;
      }
      var next := curr + 1;
      var cl, cr := region[curr].addr, region[curr].addr + region[curr].size;
      var nl, nr := region[next].addr, region[next].addr + region[next].size;
      if (if cr < nr then cr else nr) <= (if cl > nl then cl else nl) {
        return curr + 1;
      }
      ResolveAt(curr, next, cl, cr, nl, nr);
      return curr;
    }

    /** The five alignment cases of two overlapping regions. */
    method ResolveAt(curr: nat, next: nat, cl: nat, cr: nat, nl: nat, nr: nat)
      requires Fits() && curr + 1 == next < count && SortedFrom(Live(), curr)
      requires |Step(Live(), curr).s| < region.Length
      requires region[curr].addr == cl && region[curr].End() == cr && cl < cr
      requires region[next].addr == nl && region[next].End() == nr && Overlap(region[curr], region[next])
      modifies this`count, region
      ensures Fits() && Live() == Step(old(Live()), curr).s
    {
      ghost var s := Live();
      assert Cmp(s[curr], s[next]) <= 0;
      StepShape(s, curr);
      if cl == nl {
        if cr == nr {
          if region[next].typ > region[curr].typ {
            Remove(curr);
          } else {
            Remove(next);
          }
        } else {
          if region[next].typ > region[curr].typ {
            Remove(curr);
          } else {
            TrimAt(curr, next, cr, nr);
          }
        }
      } else {
        if cr == nr {
          if region[next].typ > region[curr].typ {
            region[curr] := region[curr].(size := nl - cl);
            assert Live() == ReplaceTwo(s, curr, Resolved(s[curr], s[next]));
          } else {
            Remove(next);
          }
        } else if cr < nr {
          if region[next].typ > region[curr].typ {
            region[curr] := region[curr].(size := nl - cl);
            assert Live() == ReplaceTwo(s, curr, Resolved(s[curr], s[next]));
          } else {
            TrimAt(curr, next, cr, nr);
          }
        } else {
          if region[next].typ > region[curr].typ {
            SplitAt(curr, cl, cr, nl, nr);
          } else {
            Remove(next);
          }
        }
      }
    }

    /** The cases in which the next region sticks out at the end of a more important one. */
    method TrimAt(curr: nat, next: nat, cr: nat, nr: nat)
      requires Fits() && curr + 1 == next < count && SortedFrom(Live(), curr)
      requires region[curr].size > 0 && region[curr].End() == cr < region[next].End() == nr
      requires Overlap(region[curr], region[next]) && region[next].typ <= region[curr].typ
      modifies region
      ensures Live() == Step(old(Live()), curr).s
    {
      ghost var s := Live();
      assert Cmp(s[curr], s[next]) <= 0;
      region[next] := region[next].(addr := cr, size := nr - cr);
      assert Live() == ReplaceTwo(s, curr, Resolved(s[curr], s[next]));
      ResortAt(next);
    }

    /** The case that splits a region around a more important one inside it. */
    method SplitAt(curr: nat, ghost cl: nat, cr: nat, nl: nat, nr: nat)
      requires curr + 1 < count && count + 1 < region.Length && SortedFrom(region[..count], curr)
      requires region[curr].addr == cl && region[curr].End() == cr
      requires region[curr + 1].addr == nl && region[curr + 1].End() == nr
      requires cl < nl < nr < cr && region[curr + 1].typ > region[curr].typ
      modifies this`count, region
      ensures Fits() && Live() == Step(old(region[..count]), curr).s
    {
      ghost var s := region[..count];
      region[curr] := region[curr].(size := nl - region[curr].addr);
      ghost var t := region[..count];
      assert t == s[curr := s[curr].(size := nl - cl)];
      OpenAfter(curr + 1);
      var rest := Region(nr, cr - nr, region[curr].typ, region[curr].flags);
      region[curr + 2] := rest;
      assert Live() == InsertAfter(t, curr + 1, rest);
      SplitParts(s, t, curr, rest);
      ResortAt(curr + 2);
    }

    /** What collapse_overlaps keeps while it runs: s0 is the sorted list it started with. */
    ghost predicate Collapsing(s0: seq<Region>, curr: nat)
      requires SortedFrom(s0, 0)
      reads this, region
    {
      && Fits() && region.Length > 3 * |s0|
      && SortedFrom(Live(), curr) && Rising(Live(), curr)
      && PMapCollapse.Roomy(Live(), curr, |s0|, Points(s0))
      && Collapse(Live(), curr) == Collapse(s0, 0)
    }

    method CollapseOverlaps()
      requires Fits() && region.Length > 3 * count
      requires SortedFrom(Live(), 0)
      modifies this`count, region
      ensures Fits() && Live() == Collapse(old(Live()), 0) && region.Length > 3 * old(count)
    {
      ghost var s0 := Live();
      FewPoints(s0);
      var curr: nat := 0;
      while curr + 1 < count
        invariant Collapsing(s0, curr)
        decreases TotalSize(Live()), count - curr
      {
        ghost var s := Live();
        StepFacts(s, curr, |s0|, Points(s0));
        curr := StepAt(curr);
      }
    }

    method FillGaps(typ: int)
      requires Fits() && Disjoint(Live()) && Typed(Live()) && typ >= 1
      requires |Points(Live())| < region.Length
      modifies this`count, region
      ensures Fits() && Live() == Fill(old(Live()), 0, typ)
    {
      ghost var P, all := Points(Live()), Fill(Live(), 0, typ);
      var curr := 0;
      while curr + 1 < count
        invariant Fits() && Filling(Live(), curr, typ, P, all)
        decreases Gaps(Live(), curr), count - curr
      {
        var next := curr + 1;
        var cr, nl := region[curr].addr + region[curr].size, region[next].addr;
        FillRound(Live(), curr, typ, P, all);
        if cr == nl {
          curr := curr + 1;
        } else {
          CloseGap(curr, cr, nl, typ);
        }
      }
    }

    /** Closes the gap after record curr. */
    method CloseGap(curr: nat, cr: nat, nl: nat, typ: int)
      requires Fits() && curr + 1 < count && count + 1 < region.Length
      requires cr == Live()[curr].End() < nl == Live()[curr + 1].addr
      modifies this`count, region
      ensures Fits() && Live() == FillOne(old(Live()), curr, typ)
    {
      var next := curr + 1;
      if region[curr].typ == typ {
        region[curr] := region[curr].(size := region[curr].size + (nl - cr));
      } else if region[next].typ == typ {
        region[next] := region[next].(addr := cr, size := region[next].size + (nl - cr));
      } else {
        OpenAfter(curr);
        region[next] := Region(cr, nl - cr, typ, 0);
      }
    }

    method ConsolidateNeighbors()
      requires Fits()
      modifies this`count, region
      ensures Fits() && Live() == Merge(old(Live()), 0)
    {
      ghost var s0 := Live();
      var curr := 0;
      while curr + 1 < count
        invariant Fits()
        invariant Merge(Live(), curr) == Merge(s0, 0)
        decreases count - curr
      {
        ghost var s := Live();
        var next := curr + 1;
        if region[curr].typ == region[next].typ {
          region[curr] := region[curr].(size := region[curr].size + region[next].size);
          assert Live() == s[curr := s[curr].(size := s[curr].size + s[next].size)];
          Remove(next);
        } else {
          curr := curr + 1;
        }
      }
    }

    /** The end of the last usable region, or 0. */
    method UpdateLastUsable()
      requires Fits() && Disjoint(Live())
      modifies this`lastUsable
      ensures IsUsableEnd(Live(), lastUsable)
    {
      Ordered(Live());
      lastUsable := 0;
      var i := count - 1;
      while i >= 0
        invariant -1 <= i < count && lastUsable == 0
        invariant forall k :: i < k < count ==> region[k].typ != USABLE
        decreases i
      {
        if region[i].typ == USABLE {
          lastUsable := region[i].addr + region[i].size;
          LastUsableRegion(Live(), i);
          return;
        }
        i := i - 1;
      }
      NoUsableRegion(Live());
    }

    method SortTable()
      requires Fits()
      modifies region
      ensures multiset(Live()) == multiset(old(Live())) && SortedFrom(Live(), 0)
    {
      CmpIsComparison();
      QSort.QSort(region, 0, count, Cmp);
      assert region[..count] == region[..][0..count] && old(region[..count]) == old(region[..])[0..count];
    }

    /** The passes over disjoint regions. */
    method FillAndMerge()
      requires Fits() && Disjoint(Live()) && Typed(Live()) && |Points(Live())| < region.Length
      modifies this`count, region
      ensures Fits() && Live() == Merge(Fill(old(Live()), 0, RESERVED), 0)
    {
      FillGaps(RESERVED);
      ConsolidateNeighbors();
    }

    /** The passes after sorting: resolves overlaps, reserves gaps, merges neighbours. */
    method NormalizeSorted()
      requires Fits() && region.Length > 3 * count && SortedFrom(Live(), 0) && Smooth(Live(), 0) && Typed(Live())
      modifies this`count, region
      ensures Fits() && IsNormalOf(Live(), old(Live())) && Disjoint(Live())
      ensures Points(Live()) <= Points(old(Live())) && count <= 2 * old(count)
    {
      NormalizeFacts(Live());
      CollapseOverlaps();
      FillAndMerge();
    }

    /** Sorts, resolves overlaps, reserves gaps and merges neighbours. */
    method Normalize()
      requires Fits() && region.Length > 3 * count && Resolvable(Live()) && Typed(Live())
      modifies this`count, this`lastUsable, region
      ensures Fits() && IsNormalOf(Live(), old(Live())) && IsUsableEnd(Live(), lastUsable)
      ensures Points(Live()) <= Points(old(Live())) && count <= 2 * old(count)
    {
      ghost var s := Live();
      SortTable();
      ghost var t := Live();
      SortedInput(s, t);
      NormalizeSorted();
      NormalOfPermuted(Live(), s, t);
      UpdateLastUsable();
    }

    method AddRegion(addr: nat, size: nat, typ: int)
      requires count + 1 < region.Length
      modifies this`count, region
      ensures Fits() && Live() == old(region[..count]) + [Region(addr, size, typ, 0)]
    {
      region[count] := Region(addr, size, typ, 0);
      count := count + 1;
    }

    /** Adds a region; once the map is initialized, it is kept normal. */
    method Add(addr: nat, size: nat, typ: int)
      requires region.Length > 3 * (count + 1)
      requires initialized ==>
        typ >= 1 && Resolvable(region[..count] + [Region(addr, size, typ, 0)]) && Typed(region[..count])
      modifies this`count, this`lastUsable, region
      ensures Fits()
      ensures var s := old(region[..count]) + [Region(addr, size, typ, 0)];
        if initialized then IsNormalOf(Live(), s) && IsUsableEnd(Live(), lastUsable) && Points(Live()) <= Points(s)
        else Live() == s
    {
      AddRegion(addr, size, typ);
      if initialized { Normalize(); }
    }

    method AddKernelRegions()
      requires region.Length > count + 3
      modifies this`count, region
      ensures Fits() && Live() == old(region[..count]) + KernelRegions() && count == old(count) + 3
    {
      ghost var s := region[..count];
      AddRegion(KMEM_VIDEO, KMEM_VIDEO_SIZE, UNCACHED);
      AddRegion(0, KMEM_KERNEL_IMAGE_END, RESERVED);
      AddRegion(0, 0x1000, UNMAPPED);
      assert Live() == s + KernelRegions();
    }

    /** Adds the regions the kernel needs to those the BIOS reported, and normalizes the map. */
    method Init()
      requires region.Length > 3 * (count + 3) && Resolvable(region[..count] + KernelRegions())
      requires Typed(region[..count])
      modifies this, region
      ensures Fits() && initialized
      ensures IsNormalOf(Live(), old(region[..count]) + KernelRegions()) && IsUsableEnd(Live(), lastUsable)
    {
      AddKernelRegions();
      Normalize();
      ghost var s := Live();
      initialized := true;
      assert Live() == s;
    }
  }

  const UNCACHED := 6
  const UNMAPPED := 7
  const KMEM_VIDEO := 0xa0000
  const KMEM_VIDEO_SIZE := 0x20000
  const KMEM_KERNEL_IMAGE_END := 0xa00000

  function KernelRegions(): seq<Region> {
    [Region(KMEM_VIDEO, KMEM_VIDEO_SIZE, UNCACHED, 0), Region(0, KMEM_KERNEL_IMAGE_END, RESERVED, 0),
     Region(0, 0x1000, UNMAPPED, 0)]
  }

  /** The split regions are those that one step of the scan puts in place of the two. */
  lemma SplitParts(s: seq<Region>, t: seq<Region>, c: nat, rest: Region)
    requires c + 1 < |s| && SortedFrom(s, c) && s[c].addr < s[c + 1].addr < s[c + 1].End() < s[c].End()
    requires s[c + 1].typ > s[c].typ && t == s[c := s[c].(size := s[c + 1].addr - s[c].addr)]
    requires rest == Region(s[c + 1].End(), s[c].End() - s[c + 1].End(), s[c].typ, s[c].flags)
    ensures Step(s, c).s == Resort(InsertAfter(t, c + 1, rest), c + 2)
  {
    var M := Resolved(s[c], s[c + 1]);
    assert M == [t[c], s[c + 1], rest];
    assert ReplaceTwo(s, c, M) == InsertAfter(t, c + 1, rest);
  }

  lemma LastUsableRegion(s: seq<Region>, i: nat)
    requires Disjoint(s) && i < |s| && s[i].typ == USABLE
    requires forall k :: i < k < |s| ==> s[k].typ != USABLE
    ensures IsUsableEnd(s, s[i].End())
  {
    Ordered(s);
    TypeAtLeast(s, s[i].End() - 1);
    forall x | TypeAt(s, x) == USABLE
      ensures x < s[i].End()
    {
      TypeAtLeast(s, x);
    }
  }

  lemma NoUsableRegion(s: seq<Region>)
    requires forall k :: 0 <= k < |s| ==> s[k].typ != USABLE
    ensures IsUsableEnd(s, 0)
  {
    forall x
      ensures TypeAt(s, x) != USABLE
    {
      TypeAtLeast(s, x);
    }
  }

  lemma CmpIsComparison()
    ensures QSort.IsComparison(Cmp)
  {
  }

  /** Sorting changes neither the meaning nor the endpoints of a list. */
  lemma SortedInput(s: seq<Region>, t: seq<Region>)
    requires multiset(s) == multiset(t) && SortedFrom(t, 0) && Resolvable(s) && Typed(s)
    ensures |s| == |t| && Smooth(t, 0) && Typed(t) && Points(t) == Points(s)
  {
    assert |multiset(s)| == |s| && |multiset(t)| == |t|;
    assert forall r :: r in s <==> r in multiset(s);
    assert forall r :: r in t <==> r in multiset(t);
    forall i | 0 <= i < |t|
      ensures t[i].typ >= 1
    {
      assert t[i] in s;
    }
  }

  /** What the steps of normalization need and reach, for a sorted list. */
  lemma NormalizeFacts(t: seq<Region>)
    requires SortedFrom(t, 0) && Smooth(t, 0) && Typed(t)
    ensures Disjoint(Collapse(t, 0)) && Typed(Collapse(t, 0)) && |Points(Collapse(t, 0))| <= 2 * |t|
    ensures var u := Normalized(t);
      IsNormalOf(u, t) && Disjoint(u) && Points(u) <= Points(t) && |u| <= 2 * |t|
  {
    NormalizedRight(t);
    CollapseDisjoint(t, 0);
    var d := Collapse(t, 0);
    var f := Fill(d, 0, RESERVED);
    FewPoints(t);
    Subset(Points(d), Points(t));
    FillGapless(d, 0, RESERVED);
    MergePoints(f, 0);
    CanonicalIsDisjoint(Normalized(t));
    DisjointFew(Normalized(t), Points(t));
  }

  lemma {:induction false} Subset(a: set<int>, b: set<int>)
    requires a <= b
    ensures |a| <= |b|
  {
    assert b == a + (b - a);
  }

  lemma NormalOfPermuted(u: seq<Region>, s: seq<Region>, t: seq<Region>)
    requires multiset(s) == multiset(t) && IsNormalOf(u, t)
    ensures IsNormalOf(u, s)
  {
    forall x
      ensures TypeAt(s, x) == TypeAt(t, x)
    {
      TypeAtPermuted(s, t, x);
    }
    forall x
      ensures TypeAt(u, x) == NormalType(s, x)
    {
      BetweenSame(s, t, x);
    }
  }
}
