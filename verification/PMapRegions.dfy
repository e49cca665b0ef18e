/** Regions of physical memory, what a list of them means, and how the memory map edits lists. */
module PMapRegions {
  import opened Common

  const USABLE := 1
  const RESERVED := 2

  datatype Region = Region(addr: nat, size: nat, typ: int, flags: int) {
    function End(): nat { addr + size }
    predicate Covers(x: int) { addr <= x < addr + size }
  }

  /** cmp_region: by address, then by size. */
  function Cmp(a: Region, b: Region): int {
    if a.addr > b.addr then 1
    else if a.addr < b.addr then -1
    else if a.size > b.size then 1
    else if a.size < b.size then -1
    else 0
  }

  /** The type a region gives to an address, 0 for none. */
  function TypeIn(r: Region, x: int): int {
    if r.Covers(x) then r.typ else 0
  }

  /** What a list of regions says about an address: the highest type that covers it, or 0. */
  function TypeAt(s: seq<Region>, x: int): int {
    if s == [] then 0 else Max(TypeIn(s[0], x), TypeAt(s[1..], x))
  }

  /** Two lists say the same about every address. */
  ghost predicate SameMap(s: seq<Region>, t: seq<Region>) {
    forall x :: TypeAt(s, x) == TypeAt(t, x)
  }

  ghost predicate Typed(s: seq<Region>) {
    forall i :: 0 <= i < |s| ==> s[i].typ >= 1
  }

  ghost predicate NonEmpty(s: seq<Region>) {
    forall i :: 0 <= i < |s| ==> s[i].size > 0
  }

  lemma {:induction false} TypeAtConcat(a: seq<Region>, b: seq<Region>, x: int)
    ensures TypeAt(a + b, x) == Max(TypeAt(a, x), TypeAt(b, x))
    ensures TypeAt(a, x) >= 0
  {
    if a == [] {
      assert a + b == b;
      TypeAtLeast(b, x);
    } else {
      assert (a + b)[1..] == a[1..] + b;
      TypeAtConcat(a[1..], b, x);
    }
  }

  lemma {:induction false} TypeAtLeast(s: seq<Region>, x: int)
    ensures TypeAt(s, x) >= 0
    ensures forall i :: 0 <= i < |s| ==> TypeIn(s[i], x) <= TypeAt(s, x)
    ensures TypeAt(s, x) == 0 || exists i :: 0 <= i < |s| && TypeIn(s[i], x) == TypeAt(s, x)
  {
    if s != [] {
      TypeAtLeast(s[1..], x);
      assert forall i :: 1 <= i < |s| ==> s[i] == s[1..][i - 1];
      if TypeAt(s, x) != 0 && TypeIn(s[0], x) != TypeAt(s, x) {
        var i :| 0 <= i < |s[1..]| && TypeIn(s[1..][i], x) == TypeAt(s[1..], x);
        assert s[i + 1] == s[1..][i];
      }
    }
  }

  /** The order of the regions does not matter. */
  lemma TypeAtPermuted(s: seq<Region>, t: seq<Region>, x: int)
    requires multiset(s) == multiset(t)
    ensures TypeAt(s, x) == TypeAt(t, x)
  {
    TypeAtLeast(s, x);
    TypeAtLeast(t, x);
    assert forall r :: r in s <==> r in multiset(s);
    assert forall r :: r in t <==> r in multiset(t);
    if TypeAt(s, x) != 0 {
      var i :| 0 <= i < |s| && TypeIn(s[i], x) == TypeAt(s, x);
      assert s[i] in t;
    }
    if TypeAt(t, x) != 0 {
      var i :| 0 <= i < |t| && TypeIn(t[i], x) == TypeAt(t, x);
      assert t[i] in s;
    }
  }

  // ----- Editing a list -----

  /** collapse: removes a region. */
  function Delete(s: seq<Region>, i: nat): (t: seq<Region>)
    requires i < |s|
    ensures |t| == |s| - 1
  {
    s[..i] + s[i + 1..]
  }

  /** insertafter, and filling the new record in. */
  function InsertAfter(s: seq<Region>, i: nat, r: Region): (t: seq<Region>)
    requires i < |s|
    ensures |t| == |s| + 1
  {
    s[..i + 1] + [r] + s[i + 1..]
  }

  /** resort: moves region i up past every region that is not after it. */
  function Resort(s: seq<Region>, i: nat): (t: seq<Region>)
    requires i < |s|
    ensures |t| == |s|
    decreases |s| - i
  {
    if i + 1 < |s| && Cmp(s[i], s[i + 1]) >= 0 then Resort(s[i := s[i + 1]][i + 1 := s[i]], i + 1)
    else s
  }

  /** The regions from c on are in order. */
  ghost predicate SortedFrom(s: seq<Region>, c: nat) {
    forall i :: c <= i < |s| - 1 ==> Cmp(s[i], s[i + 1]) <= 0
  }

  lemma {:induction false} ResortPermutes(s: seq<Region>, i: nat)
    requires i < |s|
    ensures multiset(Resort(s, i)) == multiset(s)
    ensures Resort(s, i)[..i] == s[..i]
    decreases |s| - i
  {
    if i + 1 < |s| && Cmp(s[i], s[i + 1]) >= 0 {
      var t := s[i := s[i + 1]][i + 1 := s[i]];
      assert s == s[..i] + [s[i], s[i + 1]] + s[i + 2..];
      assert t == s[..i] + [s[i + 1], s[i]] + s[i + 2..];
      ResortPermutes(t, i + 1);
      assert Resort(s, i)[..i] == Resort(t, i + 1)[..i + 1][..i];
    }
  }

  /** Resorting a region in front of sorted ones sorts them all. */
  lemma {:induction false} ResortSorts(s: seq<Region>, i: nat)
    requires i < |s| && SortedFrom(s, i + 1)
    ensures SortedFrom(Resort(s, i), i)
    ensures Resort(s, i)[i] == s[i] || (i + 1 < |s| && Resort(s, i)[i] == s[i + 1])
    decreases |s| - i
  {
    if i + 1 < |s| && Cmp(s[i], s[i + 1]) >= 0 {
      var t := s[i := s[i + 1]][i + 1 := s[i]];
      ResortSorts(t, i + 1);
      ResortPermutes(t, i + 1);
      assert Resort(t, i + 1)[..i + 1][i] == t[..i + 1][i];
    }
  }
}
