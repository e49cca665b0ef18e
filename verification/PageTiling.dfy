/** The pages that map_region uses for a region: the coarsest aligned tiling, and the smallest. */
module PageTiling {
  import opened PageTree

  datatype Tile = Tile(addr: nat, level: nat) {
    function End(): nat { addr + Size(level) }
    ghost predicate Aligned() { 1 <= level <= 3 && Rem(addr, level) == 0 }
  }

  /** The largest page size that is aligned at a and fits before term. */
  function PageLevel(a: nat, term: nat): (level: nat)
    requires a < term
    ensures 1 <= level <= 3
  {
    if Rem(a, 3) == 0 && term - a >= Size(3) then 3
    else if Rem(a, 2) == 0 && term - a >= Size(2) then 2
    else 1
  }

  ghost predicate PageAligned(a: nat) { Rem(a, 1) == 0 }

  lemma Multiple1(q: nat) ensures (q * 0x1000) % 0x1000 == 0 {}

  lemma Multiple2(q: nat) ensures (q * 0x20_0000) % 0x20_0000 == 0 {}

  lemma Multiple3(q: nat) ensures (q * 0x4000_0000) % 0x4000_0000 == 0 {}

  lemma MultipleRem(q: nat, level: nat)
    requires 1 <= level <= 3
    ensures Rem(Times(q, level), level) == 0
  {
    if level == 1 { Multiple1(q); } else if level == 2 { Multiple2(q); } else { Multiple3(q); }
  }

  /** An aligned address is a whole number of pages. */
  lemma WholePages(a: nat, level: nat)
    requires 1 <= level <= 3 && Rem(a, level) == 0
    ensures a == Times(Over(a, level), level)
  {
  }

  /** The sizes of pages divide each other. */
  lemma SizesDivide(a: nat, big: nat, small: nat)
    requires 1 <= small <= big <= 3 && Rem(a, big) == 0
    ensures Rem(a, small) == 0
  {
    WholePages(a, big);
    var q := Over(a, big);
    var ratio := if big == small then 1 else if big == 2 || small == 2 then 0x200 else 0x4_0000;
    assert a == Times(q * ratio, small);
    MultipleRem(q * ratio, small);
  }

  lemma NextMultiple(a: nat, b: nat, level: nat)
    requires 1 <= level <= 3 && Rem(a, level) == 0 && Rem(b, level) == 0 && a < b
    ensures a + Size(level) <= b
  {
  }

  lemma EndAligned(t: Tile)
    requires t.Aligned()
    ensures Rem(t.End(), t.level) == 0
  {
    WholePages(t.addr, t.level);
    var q := Over(t.addr, t.level);
    assert t.End() == Times(q + 1, t.level);
    MultipleRem(q + 1, t.level);
  }

  lemma PageFits(a: nat, term: nat)
    requires a < term && PageAligned(a) && PageAligned(term)
    ensures var t := Tile(a, PageLevel(a, term)); t.Aligned() && t.End() <= term && PageAligned(t.End())
  {
    var t := Tile(a, PageLevel(a, term));
    EndAligned(t);
    SizesDivide(t.End(), t.level, 1);
    if t.level == 1 { NextMultiple(a, term, 1); }
  }

  /** The pages of the region a..term, in order. */
  function Tiles(a: nat, term: nat): seq<Tile>
    requires PageAligned(a) && PageAligned(term)
    decreases term - a
  {
    if a >= term then []
    else
      PageFits(a, term);
      var t := Tile(a, PageLevel(a, term));
      [t] + Tiles(t.End(), term)
  }

  /** Aligned pages that follow each other from a to term. */
  ghost predicate IsTiling(ts: seq<Tile>, a: nat, term: nat) {
    if ts == [] then a == term
    else ts[0].addr == a && ts[0].Aligned() && IsTiling(ts[1..], ts[0].End(), term)
  }

  lemma {:induction false} TilesTile(a: nat, term: nat)
    requires PageAligned(a) && PageAligned(term) && a <= term
    ensures IsTiling(Tiles(a, term), a, term)
    decreases term - a
  {
    if a < term {
      PageFits(a, term);
      var t := Tile(a, PageLevel(a, term));
      TilesTile(t.End(), term);
      assert Tiles(a, term)[1..] == Tiles(t.End(), term);
    }
  }

  /** Page sizes divide each other: an aligned page that starts inside an aligned page of the same or a larger size
      ends inside it. */
  lemma NoStraddle(t: Tile, p: Tile)
    requires t.Aligned() && p.Aligned() && p.level <= t.level
    requires t.addr <= p.addr < t.End()
    ensures p.End() <= t.End()
  {
    EndAligned(t);
    SizesDivide(t.End(), t.level, p.level);
    NextMultiple(p.addr, t.End(), p.level);
  }

  /** An aligned page that starts strictly inside another is not larger than it. */
  lemma InnerNotLarger(t: Tile, p: Tile)
    requires t.Aligned() && p.Aligned() && t.addr < p.addr < t.End()
    ensures p.level <= t.level
  {
  }

  /** Any aligned page inside the region that starts in the first tile lies in it. */
  lemma FirstTileCoarsest(a: nat, term: nat, p: Tile)
    requires a < term && PageAligned(a) && PageAligned(term) && p.Aligned()
    requires a <= p.addr < a + Size(PageLevel(a, term)) && p.End() <= term
    ensures p.End() <= a + Size(PageLevel(a, term))
  {
    PageFits(a, term);
    var t := Tile(a, PageLevel(a, term));
    if p.addr > a { InnerNotLarger(t, p); }
    NoStraddle(t, p);
  }

  /** Every aligned page inside a region lies within one of the pages it is mapped with. */
  lemma {:induction false} Coarsest(a: nat, term: nat, p: Tile) returns (i: nat)
    requires PageAligned(a) && PageAligned(term) && p.Aligned() && a <= p.addr && p.End() <= term
    ensures i < |Tiles(a, term)|
    ensures Tiles(a, term)[i].addr <= p.addr && p.End() <= Tiles(a, term)[i].End()
    decreases term - a
  {
    assert p.addr < p.End();
    PageFits(a, term);
    var t := Tile(a, PageLevel(a, term));
    if p.addr < t.End() {
      FirstTileCoarsest(a, term, p);
      i := 0;
    } else {
      i := Coarsest(t.End(), term, p);
      i := i + 1;
    }
  }

  /** Any tiling of the region has a cut at the end of the first tile. */
  lemma {:induction false} CutAtFirst(ts: seq<Tile>, a: nat, b: nat, term: nat) returns (k: nat)
    requires PageAligned(a) && PageAligned(term) && a < term && a <= b <= a + Size(PageLevel(a, term)) <= term
    requires IsTiling(ts, b, term)
    ensures k <= |ts| && IsTiling(ts[k..], a + Size(PageLevel(a, term)), term)
    ensures b < a + Size(PageLevel(a, term)) ==> k >= 1
    decreases ts
  {
    var end := a + Size(PageLevel(a, term));
    if b == end { return 0; }
    TilingBounds(ts, b, term);
    FirstTileCoarsest(a, term, ts[0]);
    k := CutAtFirst(ts[1..], a, ts[0].End(), term);
    assert ts[1..][k..] == ts[k + 1..];
    k := k + 1;
  }

  lemma {:induction false} TilingBounds(ts: seq<Tile>, a: nat, term: nat)
    requires IsTiling(ts, a, term)
    ensures a <= term
    ensures ts != [] ==> ts[0].End() <= term
    decreases ts
  {
    if ts != [] { TilingBounds(ts[1..], ts[0].End(), term); }
  }

  /** No tiling of the region by aligned pages has fewer pages. */
  lemma {:induction false} FewestPages(a: nat, term: nat, ts: seq<Tile>)
    requires PageAligned(a) && PageAligned(term) && IsTiling(ts, a, term)
    ensures |Tiles(a, term)| <= |ts|
    decreases term - a
  {
    TilingBounds(ts, a, term);
    if a < term {
      PageFits(a, term);
      var t := Tile(a, PageLevel(a, term));
      var k := CutAtFirst(ts, a, a, term);
      FewestPages(t.End(), term, ts[k..]);
    }
  }

  /** The size class of the page over address x among the pages of the region a..term. */
  function TileLevel(a: nat, term: nat, x: nat): (level: nat)
    requires PageAligned(a) && PageAligned(term) && a <= x < term
    decreases term - a
  {
    PageFits(a, term);
    var t := Tile(a, PageLevel(a, term));
    if x < t.End() then t.level else TileLevel(t.End(), term, x)
  }

  /** The tree with the pages of the region lo..term added, in order. */
  function WithRegion(t: Tree, lo: nat, term: nat, typ: int): Tree
    requires PageAligned(lo) && PageAligned(term)
    decreases term - lo
  {
    if lo >= term then t
    else
      PageFits(lo, term);
      var level := PageLevel(lo, term);
      WithRegion(WithPage(t, lo, level, typ), lo + Size(level), term, typ)
  }

  /** The tree is in order, and nothing at or above address a is mapped. */
  ghost predicate Ready(t: Tree, a: nat) {
    Closed(t) && Fruitful(t) && LeavesBelow(t, a)
  }

  lemma PageReady(t: Tree, a: nat, term: nat, typ: int)
    requires PageAligned(a) && PageAligned(term) && a < term <= LIMIT && Ready(t, a)
    ensures var level := PageLevel(a, term);
      Free(t, a, level) && Ready(WithPage(t, a, level, typ), a + Size(level))
  {
    PageFits(a, term);
    WithPageSound(t, a, PageLevel(a, term), typ);
  }

  lemma {:induction false} RegionReady(t: Tree, lo: nat, term: nat, typ: int)
    requires PageAligned(lo) && PageAligned(term) && lo <= term <= LIMIT && Ready(t, lo)
    ensures Ready(WithRegion(t, lo, term, typ), term)
    decreases term - lo
  {
    if lo < term {
      NextPage(lo, term);
      PageReady(t, lo, term, typ);
      var level := PageLevel(lo, term);
      RegionReady(WithPage(t, lo, level, typ), lo + Size(level), term, typ);
    }
  }

  /** One page of the region: the addresses of the page are settled, the others are left to the rest. */
  lemma TileStep(lo: nat, term: nat, x: nat)
    requires PageAligned(lo) && PageAligned(term) && lo <= x < term
    ensures var next := lo + Size(PageLevel(lo, term));
      PageAligned(next) && TileLevel(lo, term, x) == if x < next then PageLevel(lo, term) else TileLevel(next, term, x)
  {
    PageFits(lo, term);
  }

  lemma RegionStep(t: Tree, lo: nat, term: nat, typ: int)
    requires PageAligned(lo) && PageAligned(term) && lo < term
    ensures var level := PageLevel(lo, term); var next := lo + Size(level);
      PageAligned(next) && WithRegion(t, lo, term, typ) == WithRegion(WithPage(t, lo, level, typ), next, term, typ)
  {
    PageFits(lo, term);
  }

  /** A walk found the page over x if the region has one, and otherwise what was there before. */
  ghost predicate Finds(found: Found, was: Found, lo: nat, term: nat, typ: int, x: nat)
    requires PageAligned(lo) && PageAligned(term)
  {
    found == if lo <= x < term then Page(TileLevel(lo, term, x), typ) else was
  }

  lemma FindsStep(found: Found, mid: Found, was: Found, lo: nat, term: nat, typ: int, x: nat)
    requires PageAligned(lo) && PageAligned(term) && lo < term
    requires var next := lo + Size(PageLevel(lo, term));
      && mid == (if lo <= x < next then Page(PageLevel(lo, term), typ) else was)
      && PageAligned(next) && next <= term && Finds(found, mid, next, term, typ, x)
    ensures Finds(found, was, lo, term, typ, x)
  {
    if lo <= x < term { TileStep(lo, term, x); }
  }

  /** Each address of the region finds the page over it; no other address is affected. */
  lemma {:induction false} RegionWalkFrom(t: Tree, r: Tree, lo: nat, term: nat, typ: int, x: nat, top: nat)
    requires PageAligned(lo) && PageAligned(term) && lo <= term <= LIMIT && Ready(t, lo) && top == 4
    requires r == WithRegion(t, lo, term, typ)
    ensures Finds(WalkFrom(r, x, top), WalkFrom(t, x, top), lo, term, typ, x)
    decreases term - lo
  {
    if lo < term {
      NextPage(lo, term);
      PageReady(t, lo, term, typ);
      RegionStep(t, lo, term, typ);
      var level := PageLevel(lo, term);
      var u := WithPage(t, lo, level, typ);
      RegionWalkFrom(u, r, lo + Size(level), term, typ, x, top);
      WithPageWalk(t, lo, level, typ, x, top);
      FindsStep(WalkFrom(r, x, top), WalkFrom(u, x, top), WalkFrom(t, x, top), lo, term, typ, x);
    }
  }

  lemma NextPage(a: nat, term: nat)
    requires PageAligned(a) && PageAligned(term) && a < term
    ensures var next := a + Size(PageLevel(a, term)); a < next <= term && PageAligned(next)
  {
    PageFits(a, term);
  }
}
