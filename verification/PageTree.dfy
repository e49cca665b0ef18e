/** A four-level page table as a tree: which slots hold tables, which hold leaves, and what a walk finds. */
module PageTree {

  /** The bytes that one entry of a table at this level covers. */
  function Size(level: nat): nat {
    if level == 1 then 0x1000
    else if level == 2 then 0x20_0000
    else if level == 3 then 0x4000_0000
    else 0x80_0000_0000
  }

  // Multiplying by a page size, dividing by it, and the remainder, each with constant factors.

  function Times(i: nat, level: nat): nat {
    if level == 1 then i * 0x1000
    else if level == 2 then i * 0x20_0000
    else if level == 3 then i * 0x4000_0000
    else i * 0x80_0000_0000
  }

  function Over(a: nat, level: nat): nat {
    if level == 1 then a / 0x1000
    else if level == 2 then a / 0x20_0000
    else if level == 3 then a / 0x4000_0000
    else a / 0x80_0000_0000
  }

  function Rem(a: nat, level: nat): nat {
    if level == 1 then a % 0x1000
    else if level == 2 then a % 0x20_0000
    else if level == 3 then a % 0x4000_0000
    else a % 0x80_0000_0000
  }

  const LIMIT := 0x1_0000_0000_0000   // four levels translate 48 bits
  const SLOTS := 512

  /** The entry of a table at `level` that covers address Times(idx, level). */
  datatype Node = Node(level: nat, idx: nat) {
    function First(): nat { Times(idx, level) }
    function End(): nat { Times(idx, level) + Size(level) }
    function Parent(): Node { Node(level + 1, idx / SLOTS) }
  }

  datatype Slot = Table | Leaf(typ: int)

  type Tree = map<Node, Slot>

  /** The entry that covers address a at a level. */
  function At(a: nat, level: nat): Node {
    Node(level, Over(a, level))
  }

  lemma AtParent(a: nat, level: nat)
    requires 1 <= level <= 3
    ensures At(a, level).Parent() == At(a, level + 1)
  {
  }

  /** The root table, as the only node above level 4. */
  const ROOT := Node(5, 0)

  /** The node of entry e of the table at n. */
  function Child(n: Node, e: nat): Node
    requires n.level >= 1
  {
    Node(n.level - 1, n.idx * SLOTS + e)
  }

  lemma ChildInjective(n: Node, e: nat, m: Node, f: nat)
    requires n.level >= 1 && m.level >= 1 && e < SLOTS && f < SLOTS && Child(n, e) == Child(m, f)
    ensures n == m && e == f
  {
  }

  lemma ChildParent(n: Node, e: nat)
    requires 1 <= n.level && e < SLOTS
    ensures Child(n, e).Parent() == n
  {
  }

  /** The slot of an address in a table is the address's node one level down. */
  lemma ChildAt(a: nat, level: nat)
    requires 1 <= level <= 4 && a < LIMIT
    ensures Over(a, level) % SLOTS < SLOTS
    ensures Child(if level == 4 then ROOT else At(a, level + 1), Over(a, level) % SLOTS) == At(a, level)
  {
    if level < 4 { AtParent(a, level); }
  }

  lemma AtRange(a: nat, level: nat)
    requires 1 <= level <= 4
    ensures At(a, level).First() <= a < At(a, level).End()
  {
  }

  lemma AtUnique(a: nat, n: Node)
    requires 1 <= n.level <= 4 && n.First() <= a < n.End()
    ensures At(a, n.level) == n
  {
  }

  lemma AtAligned(a: nat, level: nat)
    requires 1 <= level <= 4 && Rem(a, level) == 0
    ensures At(a, level).First() == a && At(a, level).End() == a + Size(level)
  {
  }

  lemma NodeNotEmpty(n: Node)
    ensures n.First() < n.End()
  {
  }

  /** All addresses of an aligned page have the same entries from its level up. */
  lemma SamePage(a: nat, x: nat, level: nat, l: nat)
    requires 1 <= level <= l <= 4 && Rem(a, level) == 0
    requires a <= x < a + Size(level)
    ensures At(x, l) == At(a, l)
    decreases l
  {
    if l == level {
    } else {
      SamePage(a, x, level, l - 1);
      AtParent(a, l - 1);
      AtParent(x, l - 1);
    }
  }

  datatype Found = Nothing | Page(level: nat, typ: int)

  /** What a walk from `level` down finds for address a. */
  function WalkFrom(t: Tree, a: nat, level: nat): Found {
    if level == 0 || At(a, level) !in t then Nothing
    else match t[At(a, level)]
      case Leaf(typ) => Page(level, typ)
      case Table => WalkFrom(t, a, level - 1)
  }

  /** Slots hang together: every one but those of the root table lies in a table, and leaves are not too big. */
  ghost predicate Closed(t: Tree) {
    forall n :: n in t ==>
      && 1 <= n.level <= 4 && n.End() <= LIMIT
      && (n.level < 4 ==> n.Parent() in t && t[n.Parent()].Table?)
      && (t[n].Leaf? ==> n.level <= 3) && (t[n].Table? ==> n.level >= 2)
  }

  /** A new slot of a table, or a leaf in the place of another, keeps the tree closed. */
  lemma ClosedAdd(t: Tree, n: Node, e: nat, slot: Slot)
    requires Closed(t) && e < SLOTS && (n == ROOT || (n in t && t[n].Table?))
    requires Child(n, e).End() <= LIMIT && (Child(n, e) in t ==> t[Child(n, e)].Leaf?)
    requires if slot.Table? then n.level >= 3 else n.level <= 4
    ensures Closed(t[Child(n, e) := slot])
  {
    ChildParent(n, e);
  }

  /** Every table has a leaf somewhere under it. */
  ghost predicate Fruitful(t: Tree) {
    forall n :: n in t && t[n].Table? ==>
      exists m :: m in t && t[m].Leaf? && n.First() <= m.First() && m.End() <= n.End()
  }

  /** All leaves lie below address a. */
  ghost predicate LeavesBelow(t: Tree, a: nat) {
    forall n :: n in t && t[n].Leaf? ==> n.End() <= a
  }

  /** The entries over address a down to above `level`, made tables where they were missing. */
  function WithTables(t: Tree, a: nat, from: nat, level: nat): Tree
    requires level <= from <= 4
    decreases from - level
  {
    if from == level then t
    else WithTables(if At(a, from) in t then t else t[At(a, from) := Table], a, from - 1, level)
  }

  /** The tree with a page of this level and type at address a. */
  function WithPage(t: Tree, a: nat, level: nat, typ: int): Tree
    requires 1 <= level <= 3
  {
    WithTables(t, a, 4, level)[At(a, level) := Leaf(typ)]
  }

  /** Address a is free for an aligned page: nothing at or above it has been mapped. */
  ghost predicate Free(t: Tree, a: nat, level: nat) {
    && 1 <= level <= 3 && Rem(a, level) == 0 && a + Size(level) <= LIMIT
    && Closed(t) && Fruitful(t) && LeavesBelow(t, a)
  }

  /** Above a free page there are only tables or nothing, and there is nothing at it. */
  lemma FreeSlots(t: Tree, a: nat, level: nat, l: nat)
    requires Free(t, a, level) && level <= l <= 4
    ensures l > level ==> At(a, l) !in t || t[At(a, l)].Table?
    ensures l == level ==> At(a, l) !in t
  {
    AtRange(a, l);
    var n := At(a, l);
    if l == level && n in t && t[n].Table? {
      AtAligned(a, level);
      var m :| m in t && t[m].Leaf? && n.First() <= m.First() && m.End() <= n.End();
      NodeNotEmpty(m);
    }
  }

  /** Every slot of t is in u unchanged; what else is in u is a table on the way down to a. */
  ghost predicate Extends(t: Tree, u: Tree, a: nat, level: nat, from: nat) {
    && (forall n :: n in t ==> n in u && u[n] == t[n])
    && (forall n :: n in u && n !in t ==> level < n.level <= from && n == At(a, n.level) && u[n].Table?)
    && (forall l :: level < l <= from ==> At(a, l) in u)
  }

  lemma {:induction false} TablesExtend(t: Tree, a: nat, from: nat, level: nat)
    requires level <= from <= 4
    ensures Extends(t, WithTables(t, a, from, level), a, level, from)
    decreases from - level
  {
    if from > level {
      var t1 := if At(a, from) in t then t else t[At(a, from) := Table];
      TablesExtend(t1, a, from - 1, level);
    }
  }

  /** The new tree: the old one, tables on the way down, and the leaf. */
  ghost predicate Grown(t: Tree, u: Tree, a: nat, level: nat, typ: int) {
    && 1 <= level <= 3
    && (forall n :: n in t ==> n in u && u[n] == t[n])
    && (forall n :: n in u && n !in t ==>
      && level <= n.level <= 4 && n == At(a, n.level)
      && u[n] == (if n.level == level then Leaf(typ) else Table))
    && (forall l :: level <= l <= 4 ==> At(a, l) in u)
    && u[At(a, level)] == Leaf(typ)
  }

  lemma PageGrows(t: Tree, a: nat, level: nat, typ: int)
    requires Free(t, a, level)
    ensures Grown(t, WithPage(t, a, level, typ), a, level, typ)
  {
    TablesExtend(t, a, 4, level);
    FreeSlots(t, a, level, level);
  }

  lemma AtLimit(a: nat, level: nat)
    requires 1 <= level <= 4 && a < LIMIT
    ensures At(a, level).End() <= LIMIT
  {
  }

  lemma GrownClosed(t: Tree, u: Tree, a: nat, level: nat, typ: int)
    requires Free(t, a, level) && Grown(t, u, a, level, typ)
    ensures Closed(u)
  {
    forall n | n in u && n !in t
      ensures 1 <= n.level <= 4 && n.End() <= LIMIT
      ensures n.level < 4 ==> n.Parent() in u && u[n.Parent()].Table?
    {
      AtLimit(a, n.level);
      if n.level < 4 {
        AtParent(a, n.level);
        FreeSlots(t, a, level, n.level + 1);
      }
    }
  }

  /** Nodes on the way down to an aligned page contain it. */
  lemma {:induction false} AboveContains(a: nat, level: nat, l: nat)
    requires 1 <= level <= l <= 4 && Rem(a, level) == 0
    ensures At(a, l).First() <= a && a + Size(level) <= At(a, l).End()
  {
    AtRange(a, l);
    var last := a + Size(level) - 1;
    SamePage(a, last, level, l);
    AtRange(last, l);
  }

  lemma GrownFruitful(t: Tree, u: Tree, a: nat, level: nat, typ: int)
    requires Free(t, a, level) && Grown(t, u, a, level, typ)
    ensures Fruitful(u) && LeavesBelow(u, a + Size(level))
  {
    var leaf := At(a, level);
    AtAligned(a, level);
    forall n | n in u && u[n].Table?
      ensures exists m :: m in u && u[m].Leaf? && n.First() <= m.First() && m.End() <= n.End()
    {
      if n in t {
        var m :| m in t && t[m].Leaf? && n.First() <= m.First() && m.End() <= n.End();
        assert m in u && u[m].Leaf?;
      } else {
        AboveContains(a, level, n.level);
        assert leaf in u && u[leaf].Leaf?;
      }
    }
  }

  /** Addresses outside the page find nothing where there was nothing. */
  lemma {:induction false} WalkNew(t: Tree, u: Tree, a: nat, level: nat, typ: int, x: nat, l: nat)
    requires Closed(t) && Grown(t, u, a, level, typ) && At(x, level) != At(a, level)
    requires 1 <= l <= 4 && At(x, l) !in t
    ensures WalkFrom(u, x, l) == Nothing
    decreases l
  {
    if l > level && At(x, l) in u {
      AtParent(x, l - 1);
      WalkNew(t, u, a, level, typ, x, l - 1);
    }
  }

  lemma {:induction false} WalkOutside(t: Tree, u: Tree, a: nat, level: nat, typ: int, x: nat, l: nat)
    requires Closed(t) && Grown(t, u, a, level, typ) && At(x, level) != At(a, level)
    requires l <= 4
    ensures WalkFrom(u, x, l) == WalkFrom(t, x, l)
    decreases l
  {
    if l > 0 {
      if At(x, l) in t {
        WalkOutside(t, u, a, level, typ, x, l - 1);
      } else {
        WalkNew(t, u, a, level, typ, x, l);
      }
    }
  }

  lemma {:induction false} WalkInside(t: Tree, u: Tree, a: nat, level: nat, typ: int, x: nat, l: nat)
    requires Free(t, a, level) && Grown(t, u, a, level, typ)
    requires a <= x < a + Size(level) && level <= l <= 4
    ensures WalkFrom(u, x, l) == Page(level, typ)
    decreases l
  {
    SamePage(a, x, level, l);
    if l > level {
      FreeSlots(t, a, level, l);
      WalkInside(t, u, a, level, typ, x, l - 1);
    }
  }

  /** Mapping a page at a free address keeps the tree in order. */
  lemma WithPageSound(t: Tree, a: nat, level: nat, typ: int)
    requires Free(t, a, level)
    ensures var u := WithPage(t, a, level, typ); Closed(u) && Fruitful(u) && LeavesBelow(u, a + Size(level))
  {
    var u := WithPage(t, a, level, typ);
    PageGrows(t, a, level, typ);
    GrownClosed(t, u, a, level, typ);
    GrownFruitful(t, u, a, level, typ);
  }

  /** The addresses of a new page find it, and no other address is affected. */
  lemma WithPageWalk(t: Tree, a: nat, level: nat, typ: int, x: nat, top: nat)
    requires Free(t, a, level) && top == 4
    ensures WalkFrom(WithPage(t, a, level, typ), x, top) ==
      if a <= x < a + Size(level) then Page(level, typ) else WalkFrom(t, x, top)
  {
    var u := WithPage(t, a, level, typ);
    PageGrows(t, a, level, typ);
    if a <= x < a + Size(level) {
      WalkInside(t, u, a, level, typ, x, top);
    } else {
      AtAligned(a, level);
      AtRange(x, level);
      WalkOutside(t, u, a, level, typ, x, top);
    }
  }
}
