/** What mapping every region of a memory map makes of the page table. */
module PageMap {
  import opened PageTree
  import opened PageTiling
  import opened PMapRegions
  import opened PMapNormal

  const ACPI := 3
  const ACPI_NVS := 4
  const BAD := 5
  const UNCACHED := 6
  const UNMAPPED := 7

  /** The memory types that get_pdflags and get_ptflags know. */
  predicate KnownType(typ: int) { USABLE <= typ <= UNMAPPED }

  /** The types whose pages are present. */
  predicate Mappable(typ: int) { KnownType(typ) && typ != BAD && typ != UNMAPPED }

  /** Whether map_region maps a region at all. */
  predicate Maps(region: Region, lastUsable: nat) {
    region.typ != UNMAPPED && region.typ != BAD && !(region.typ == RESERVED && region.addr >= lastUsable)
  }

  /** A region of whole pages that four levels can map. */
  ghost predicate Fits(r: Region) {
    PageAligned(r.addr) && PageAligned(r.End()) && r.End() <= LIMIT
  }

  ghost predicate FitsAll(s: seq<Region>) {
    forall i :: 0 <= i < |s| ==> Fits(s[i])
  }

  /** The tree after map_region. */
  ghost function WithRegionOf(t: Tree, r: Region, lastUsable: nat): Tree
    requires Fits(r)
  {
    if Maps(r, lastUsable) then WithRegion(t, r.addr, r.End(), r.typ) else t
  }

  /** The tree after map_region for the first n regions of a map. */
  ghost function MapTree(s: seq<Region>, n: nat, lastUsable: nat): Tree
    requires n <= |s| && FitsAll(s)
  {
    if n == 0 then map[] else WithRegionOf(MapTree(s, n - 1, lastUsable), s[n - 1], lastUsable)
  }

  lemma RegionMapped(t: Tree, r: Region, lastUsable: nat)
    requires Fits(r)
    ensures WithRegionOf(t, r, lastUsable) == if Maps(r, lastUsable) then WithRegion(t, r.addr, r.End(), r.typ) else t
  {
  }

  lemma RegionOfReady(t: Tree, r: Region, lastUsable: nat)
    requires Fits(r) && Ready(t, r.addr)
    ensures Ready(WithRegionOf(t, r, lastUsable), r.End())
  {
    if Maps(r, lastUsable) { RegionReady(t, r.addr, r.End(), r.typ); }
  }

  /** The tree is ready for the next region. */
  lemma {:induction false} MapReady(s: seq<Region>, n: nat, lastUsable: nat)
    requires n <= |s| && FitsAll(s) && Gapless(s)
    ensures n > 0 ==> Ready(MapTree(s, n, lastUsable), s[n - 1].End())
    ensures n < |s| ==> Ready(MapTree(s, n, lastUsable), s[n].addr)
  {
    if n > 0 {
      MapReady(s, n - 1, lastUsable);
      RegionOfReady(MapTree(s, n - 1, lastUsable), s[n - 1], lastUsable);
      assert n < |s| ==> s[n - 1].End() == s[n].addr;
    }
  }

  /** What a walk finds for an address of a region. */
  ghost function RegionSees(r: Region, lastUsable: nat, x: nat): Found
    requires Fits(r) && r.Covers(x)
  {
    if Maps(r, lastUsable) then Page(TileLevel(r.addr, r.End(), x), r.typ) else Nothing
  }

  lemma RegionOfWalk(t: Tree, r: Region, lastUsable: nat, x: nat, top: nat)
    requires Fits(r) && Ready(t, r.addr) && top == 4
    ensures r.Covers(x) && WalkFrom(t, x, top) == Nothing ==>
      WalkFrom(WithRegionOf(t, r, lastUsable), x, top) == RegionSees(r, lastUsable, x)
    ensures !r.Covers(x) ==> WalkFrom(WithRegionOf(t, r, lastUsable), x, top) == WalkFrom(t, x, top)
  {
    if Maps(r, lastUsable) { RegionWalkFrom(t, WithRegionOf(t, r, lastUsable), r.addr, r.End(), r.typ, x, top); }
  }

  /** A walk found what the region over the address says, or nothing where none of the first n is over it. */
  ghost predicate Sees(found: Found, s: seq<Region>, n: nat, lastUsable: nat, x: nat)
    requires n <= |s| && FitsAll(s)
  {
    && (forall i :: 0 <= i < n && s[i].Covers(x) ==> found == RegionSees(s[i], lastUsable, x))
    && ((forall i :: 0 <= i < n ==> !s[i].Covers(x)) ==> found == Nothing)
  }

  lemma SeesNext(s: seq<Region>, n: nat, lastUsable: nat, x: nat, was: Found, found: Found)
    requires n < |s| && FitsAll(s) && Gapless(s) && NonEmpty(s) && Sees(was, s, n, lastUsable, x)
    requires s[n].Covers(x) && was == Nothing ==> found == RegionSees(s[n], lastUsable, x)
    requires !s[n].Covers(x) ==> found == was
    ensures Sees(found, s, n + 1, lastUsable, x)
  {
    if s[n].Covers(x) { Ordered(s); }
  }

  lemma RegionOfSees(t: Tree, u: Tree, s: seq<Region>, n: nat, lastUsable: nat, x: nat, top: nat)
    requires n < |s| && FitsAll(s) && Gapless(s) && NonEmpty(s) && Ready(t, s[n].addr) && top == 4
    requires u == WithRegionOf(t, s[n], lastUsable) && Sees(WalkFrom(t, x, top), s, n, lastUsable, x)
    ensures Sees(WalkFrom(u, x, top), s, n + 1, lastUsable, x)
  {
    RegionOfWalk(t, s[n], lastUsable, x, top);
    SeesNext(s, n, lastUsable, x, WalkFrom(t, x, top), WalkFrom(u, x, top));
  }

  /** A walk finds what the region over the address says, and nothing where there is none. */
  lemma {:induction false} MapWalk(s: seq<Region>, n: nat, lastUsable: nat, x: nat, top: nat, t: Tree)
    requires n <= |s| && FitsAll(s) && Gapless(s) && NonEmpty(s) && top == 4 && t == MapTree(s, n, lastUsable)
    ensures Sees(WalkFrom(t, x, top), s, n, lastUsable, x)
  {
    if n > 0 {
      var was := MapTree(s, n - 1, lastUsable);
      MapWalk(s, n - 1, lastUsable, x, top, was);
      MapReady(s, n - 1, lastUsable);
      RegionOfSees(was, t, s, n - 1, lastUsable, x, top);
    }
  }

  /** A reserved region lies wholly below or wholly above the end of usable memory. */
  lemma ReservedSide(s: seq<Region>, i: nat, lastUsable: nat, x: nat)
    requires Canonical(s) && IsUsableEnd(s, lastUsable) && i < |s| && s[i].Covers(x) && s[i].typ == RESERVED
    ensures s[i].addr >= lastUsable <==> x >= lastUsable
  {
    if s[i].addr < lastUsable <= x {
      TypeAtCovered(s, i, lastUsable - 1);
    }
  }

  /** Whether an address is to be mapped, by what the memory map says about it. */
  predicate Visible(typ: int, lastUsable: nat, x: nat) {
    Mappable(typ) && !(typ == RESERVED && x >= lastUsable)
  }

  /** What a walk finds where the memory map says typ: a page of that type where it is to be mapped. */
  ghost predicate Shows(found: Found, typ: int, lastUsable: nat, x: nat) {
    if Visible(typ, lastUsable, x) then found.Page? && found.typ == typ
    else found.Page? ==> !Mappable(found.typ)
  }

  /** What a region says about one of its addresses is what the whole map says about it. */
  lemma RegionVisible(s: seq<Region>, i: nat, lastUsable: nat, x: nat)
    requires Canonical(s) && FitsAll(s) && IsUsableEnd(s, lastUsable) && i < |s| && s[i].Covers(x)
    ensures TypeAt(s, x) == s[i].typ && Shows(RegionSees(s[i], lastUsable, x), s[i].typ, lastUsable, x)
    ensures Visible(s[i].typ, lastUsable, x) ==> Maps(s[i], lastUsable)
  {
    TypeAtCovered(s, i, x);
    if s[i].typ == RESERVED { ReservedSide(s, i, lastUsable, x); }
  }

  /** What a walk finds in the tree of a whole normalised map. */
  lemma MapTreeWalk(s: seq<Region>, lastUsable: nat, x: nat, top: nat)
    requires Canonical(s) && FitsAll(s) && IsUsableEnd(s, lastUsable) && top == 4
    ensures Shows(WalkFrom(MapTree(s, |s|, lastUsable), x, top), TypeAt(s, x), lastUsable, x)
    ensures forall i | 0 <= i < |s| && s[i].Covers(x) && Visible(s[i].typ, lastUsable, x) ::
      WalkFrom(MapTree(s, |s|, lastUsable), x, top) == Page(TileLevel(s[i].addr, s[i].End(), x), s[i].typ)
  {
    MapWalk(s, |s|, lastUsable, x, top, MapTree(s, |s|, lastUsable));
    TypeAtLeast(s, x);
    forall i | 0 <= i < |s| && s[i].Covers(x)
      ensures TypeAt(s, x) == s[i].typ && Shows(RegionSees(s[i], lastUsable, x), s[i].typ, lastUsable, x)
      ensures Visible(s[i].typ, lastUsable, x) ==> Maps(s[i], lastUsable)
    {
      RegionVisible(s, i, lastUsable, x);
    }
  }
}
