/** Radix trees of 512-entry tables: what they translate, the shape they keep, and what one
    changed entry does to the translation of every address. */
module PageTree {
  import opened Options
  import opened Arith

  /** Bytes translated by one entry of a table at `level`; level 1 entries map 4 KiB pages. */
  function Span(level: nat): (s: nat)
    ensures s > 0
  {
    if level <= 1 then 4096 else 512 * Span(level - 1)
  }

  lemma SpanValues()
    ensures Span(1) == 4096 && Span(2) == 0x20_0000 && Span(3) == 0x4000_0000
  {
    assert Span(2) == 512 * Span(1);
    assert Span(3) == 512 * Span(2);
  }

  function Index(x: nat, level: nat): nat { x / Span(level) % 512 }

  datatype Grant = Grant(read: bool, write: bool, exec: bool) {
    function And(g: Grant): Grant { Grant(read && g.read, write && g.write, exec && g.exec) }

    predicate Within(g: Grant) { (read ==> g.read) && (write ==> g.write) && (exec ==> g.exec) }
  }

  const FULL: Grant := Grant(true, true, true)

  datatype Slot =
    | Absent
    | Table(child: nat, grant: Grant)
    | Leaf(frame: nat, grant: Grant)

  datatype Hit = Hit(address: nat, grant: Grant)

  /** A hit and the level of the leaf that gave it. */
  datatype Found = Found(hit: Hit, level: nat)

  /** The tables by page address, with their level and the entry that refers to them. */
  datatype Tree = Tree(
    slots: map<nat, seq<Slot>>,
    level: map<nat, nat>,
    parent: map<nat, (nat, nat)>,
    root: nat,
    depth: nat)

  // ---------------------------------------------------------------- translation

  /** Translation of `x` from a table at `level`, with the grant of the leaf alone. */
  function LeafAt(slots: map<nat, seq<Slot>>, page: nat, level: nat, x: nat): Option<Found>
    decreases level
  {
    if page !in slots || |slots[page]| != 512 then None
    else
      match slots[page][Index(x, level)]
      case Absent => None
      case Leaf(f, g) => Some(Found(Hit(f + x % Span(level), g), level))
      case Table(c, g) => if level <= 1 then None else LeafAt(slots, c, level - 1, x)
  }

  /** The walk of the hardware: it grants what every entry on the way grants. */
  function Walk(slots: map<nat, seq<Slot>>, page: nat, level: nat, x: nat, granted: Grant): Option<Hit>
    decreases level
  {
    if page !in slots || |slots[page]| != 512 then None
    else
      match slots[page][Index(x, level)]
      case Absent => None
      case Leaf(f, g) => Some(Hit(f + x % Span(level), granted.And(g)))
      case Table(c, g) => if level <= 1 then None else Walk(slots, c, level - 1, x, granted.And(g))
  }

  /** The leaf for `x`. */
  function Find(t: Tree, x: nat): Option<Found> { LeafAt(t.slots, t.root, t.depth, x) }

  function Translate(t: Tree, x: nat): Option<Hit> {
    match Find(t, x)
    case None => None
    case Some(f) => Some(f.hit)
  }

  /** The table at `level` on the way to `x`. */
  function PathTo(t: Tree, x: nat, level: nat): Option<nat>
    decreases t.depth - level
  {
    if level >= t.depth then Some(t.root)
    else
      match PathTo(t, x, level + 1)
      case None => None
      case Some(p) =>
        if p in t.slots && |t.slots[p]| == 512 && t.slots[p][Index(x, level + 1)].Table?
        then Some(t.slots[p][Index(x, level + 1)].child)
        else None
  }

  /** A page larger than 4 KiB is in the way of a smaller one at `v`. */
  ghost predicate Obstructed(t: Tree, v: nat) { exists level :: LargeAt(t, v, level) }

  ghost predicate LargeAt(t: Tree, v: nat, level: nat) {
    && 1 < level <= t.depth && PathTo(t, v, level).Some?
    && var p := PathTo(t, v, level).value;
    p in t.slots && |t.slots[p]| == 512 && t.slots[p][Index(v, level)].Leaf?
  }

  /** A large page is in the way somewhere in `[v, v + length)`. */
  ghost predicate ObstructedIn(t: Tree, v: nat, length: nat) {
    exists u :: Distance(u, v, Span(t.depth + 1)) < length && Obstructed(t, u)
  }

  ghost predicate ObstructedSomewhere(t: Tree) { exists u :: Obstructed(t, u) }

  lemma ObstructedHere(t: Tree, v: nat, length: nat, u: nat)
    requires Obstructed(t, u) && Distance(u, v, Span(t.depth + 1)) < length
    ensures ObstructedIn(t, v, length)
  {
  }

  lemma ObstructedAnywhere(t: Tree, v: nat, length: nat)
    requires ObstructedIn(t, v, length)
    ensures ObstructedSomewhere(t)
  {
  }

  // ---------------------------------------------------------------- the shape

  /** A table entry refers to a table one level down that no other entry refers to. */
  ghost predicate SlotShape(t: Tree, p: nat, i: nat)
    requires p in t.slots && p in t.level && i < |t.slots[p]|
  {
    var s := t.slots[p][i];
    s.Table? ==>
      && t.level[p] > 1
      && s.child in t.slots && s.child in t.level && t.level[s.child] == t.level[p] - 1
      && s.child in t.parent && t.parent[s.child] == (p, i)
  }

  /** An entry grants at least what the entries of the table below it grant. */
  ghost predicate SlotGrant(t: Tree, p: nat, i: nat)
    requires p in t.slots && i < |t.slots[p]|
  {
    var s := t.slots[p][i];
    s.Table? && s.child in t.slots ==>
      forall j :: 0 <= j < |t.slots[s.child]| && !t.slots[s.child][j].Absent? ==>
          t.slots[s.child][j].grant.Within(s.grant)
  }

  ghost predicate Tables(t: Tree) {
    && t.slots.Keys == t.level.Keys
    && t.root in t.level && t.level[t.root] == t.depth && t.depth >= 1
    && (forall p :: p in t.slots ==> |t.slots[p]| == 512 && 1 <= t.level[p] <= t.depth)
  }

  /** The tables form a forest: levels go down along entries, and no table is shared. */
  ghost predicate Shape(t: Tree) {
    && Tables(t)
    && (forall p, i :: p in t.slots && 0 <= i < 512 ==> SlotShape(t, p, i))
    && (forall p, i :: p in t.slots && 0 <= i < 512 ==> SlotGrant(t, p, i))
  }

  /** No table is shared, and none is below itself. */
  lemma NoTableShared(t: Tree, p: nat, i: nat, q: nat, j: nat)
    requires Shape(t) && p in t.slots && q in t.slots && i < 512 && j < 512
    requires t.slots[p][i].Table? && t.slots[q][j].Table? && t.slots[p][i].child == t.slots[q][j].child
    ensures p == q && i == j && t.slots[p][i].child in t.level && t.level[t.slots[p][i].child] < t.level[p]
  {
    assert SlotShape(t, p, i) && SlotShape(t, q, j);
  }

  lemma {:induction false} PathLevel(t: Tree, x: nat, level: nat)
    requires Shape(t) && 1 <= level <= t.depth && PathTo(t, x, level).Some?
    ensures PathTo(t, x, level).value in t.slots && t.level[PathTo(t, x, level).value] == level
    decreases t.depth - level
  {
    if level < t.depth {
      PathLevel(t, x, level + 1);
      var p := PathTo(t, x, level + 1).value;
      assert SlotShape(t, p, Index(x, level + 1));
    }
  }

  /** Translation starts at the root, and so continues at every table on the way. */
  lemma {:induction false} TranslateFrom(t: Tree, x: nat, level: nat)
    requires 1 <= level <= t.depth && PathTo(t, x, level).Some?
    ensures Find(t, x) == LeafAt(t.slots, PathTo(t, x, level).value, level, x)
    decreases t.depth - level
  {
    if level < t.depth {
      TranslateFrom(t, x, level + 1);
    }
  }

  // ---------------------------------------------------------------- grants

  lemma {:induction false} LeafWithin(t: Tree, p: nat, level: nat, x: nat)
    requires Shape(t) && p in t.slots && t.level[p] == level
    ensures var h := LeafAt(t.slots, p, level, x);
            h.Some? ==> h.value.hit.grant.Within(t.slots[p][Index(x, level)].grant)
    decreases level
  {
    var s := t.slots[p][Index(x, level)];
    if s.Table? {
      assert SlotShape(t, p, Index(x, level)) && SlotGrant(t, p, Index(x, level));
      LeafWithin(t, s.child, level - 1, x);
      assert LeafAt(t.slots, s.child, level - 1, x).Some? ==> !t.slots[s.child][Index(x, level - 1)].Absent?;
    }
  }

  lemma {:induction false} WalkFrom(t: Tree, p: nat, level: nat, x: nat, granted: Grant)
    requires Shape(t) && p in t.slots && t.level[p] == level
    ensures var h := LeafAt(t.slots, p, level, x);
            Walk(t.slots, p, level, x, granted) ==
            if h.Some? then Some(Hit(h.value.hit.address, granted.And(h.value.hit.grant))) else None
    decreases level
  {
    var s := t.slots[p][Index(x, level)];
    if s.Table? {
      assert SlotShape(t, p, Index(x, level));
      WalkFrom(t, s.child, level - 1, x, granted.And(s.grant));
      LeafWithin(t, p, level, x);
    }
  }

  /** In a well-shaped tree, what the hardware grants is what the leaf itself grants. */
  lemma WalkIsTranslate(t: Tree, x: nat)
    requires Shape(t)
    ensures Walk(t.slots, t.root, t.depth, x, FULL) == Translate(t, x)
  {
    WalkFrom(t, t.root, t.depth, x, FULL);
  }

  // ---------------------------------------------------------------- addresses that share a path

  /** `x` and `v` have the same indices from `level` up to `depth`. */
  ghost predicate Agree(x: nat, v: nat, level: nat, depth: nat)
    decreases depth - level
  {
    level > depth || (Index(x, level) == Index(v, level) && Agree(x, v, level + 1, depth))
  }

  /** No table is shared, so two ways to the same table use the same indices. */
  lemma {:induction false} SamePath(t: Tree, x: nat, v: nat, level: nat)
    requires Shape(t) && 1 <= level <= t.depth
    requires PathTo(t, v, level).Some?
    ensures PathTo(t, x, level) == PathTo(t, v, level) <==> Agree(x, v, level + 1, t.depth)
    decreases t.depth - level
  {
    if level < t.depth {
      SamePath(t, x, v, level + 1);
      PathLevel(t, v, level + 1);
      var q := PathTo(t, v, level + 1).value;
      assert SlotShape(t, q, Index(v, level + 1));
      if PathTo(t, x, level).Some? && PathTo(t, x, level) == PathTo(t, v, level) {
        PathLevel(t, x, level + 1);
        var p := PathTo(t, x, level + 1).value;
        assert SlotShape(t, p, Index(x, level + 1));
      }
    }
  }

  // ---------------------------------------------------------------- changing one entry

  /** `t` with entry `i` of table `p` replaced. */
  function Put(t: Tree, p: nat, i: nat, s: Slot): Tree
    requires p in t.slots && i < |t.slots[p]|
  {
    t.(slots := t.slots[p := t.slots[p][i := s]])
  }

  /** The way to `x` passes through entry `i` of table `p`. */
  ghost predicate Through(t: Tree, x: nat, p: nat, i: nat)
    requires p in t.level
  {
    PathTo(t, x, t.level[p]) == Some(p) && Index(x, t.level[p]) == i
  }

  lemma {:induction false} LeafAtElsewhere(t: Tree, p: nat, i: nat, s: Slot, x: nat, q: nat, level: nat)
    requires Shape(t) && p in t.slots && i < 512 && !Through(t, x, p, i)
    requires 1 <= level <= t.depth && PathTo(t, x, level) == Some(q)
    ensures LeafAt(Put(t, p, i, s).slots, q, level, x) == LeafAt(t.slots, q, level, x)
    decreases level
  {
    PathLevel(t, x, level);
    var e := t.slots[q][Index(x, level)];
    if e.Table? {
      assert SlotShape(t, q, Index(x, level));
      assert PathTo(t, x, level - 1) == Some(e.child);
      LeafAtElsewhere(t, p, i, s, x, e.child, level - 1);
    }
  }

  /** An address whose way avoids the changed entry translates as before. */
  lemma PutElsewhere(t: Tree, p: nat, i: nat, s: Slot, x: nat)
    requires Shape(t) && p in t.slots && i < 512 && !Through(t, x, p, i)
    ensures Find(Put(t, p, i, s), x) == Find(t, x)
  {
    LeafAtElsewhere(t, p, i, s, x, t.root, t.depth);
  }

  /** Ways down to the changed table and above it stay the same. */
  lemma {:induction false} PutPath(t: Tree, p: nat, i: nat, s: Slot, x: nat, level: nat)
    requires Shape(t) && p in t.slots && i < 512 && t.level[p] <= level <= t.depth
    ensures PathTo(Put(t, p, i, s), x, level) == PathTo(t, x, level)
    decreases t.depth - level
  {
    if level < t.depth {
      PutPath(t, p, i, s, x, level + 1);
      if PathTo(t, x, level + 1).Some? {
        PathLevel(t, x, level + 1);
      }
    }
  }

  /** An address whose way takes the changed entry translates as that entry says. */
  lemma PutHere(t: Tree, p: nat, i: nat, s: Slot, x: nat)
    requires Shape(t) && p in t.slots && i < 512 && Through(t, x, p, i)
    ensures Find(Put(t, p, i, s), x) == LeafAt(Put(t, p, i, s).slots, p, t.level[p], x)
  {
    PutPath(t, p, i, s, x, t.level[p]);
    TranslateFrom(Put(t, p, i, s), x, t.level[p]);
  }

  lemma {:induction false} LeafAtBelow(t: Tree, p: nat, i: nat, s: Slot, q: nat, level: nat, x: nat)
    requires Shape(t) && p in t.slots && i < 512
    requires q in t.slots && t.level[q] == level < t.level[p]
    ensures LeafAt(Put(t, p, i, s).slots, q, level, x) == LeafAt(t.slots, q, level, x)
    decreases level
  {
    var e := t.slots[q][Index(x, level)];
    if e.Table? {
      assert SlotShape(t, q, Index(x, level));
      LeafAtBelow(t, p, i, s, e.child, level - 1, x);
    }
  }

  /** The entry that refers to table `p` grants at least `g`; nothing refers to the root. */
  ghost predicate Permits(t: Tree, p: nat, g: Grant) {
    p == t.root || (p in t.parent && Refers(t, t.parent[p].0, t.parent[p].1, p, g))
  }

  ghost predicate Refers(t: Tree, q: nat, j: nat, p: nat, g: Grant) {
    && q in t.slots && j < |t.slots[q]|
    && t.slots[q][j].Table? && t.slots[q][j].child == p && g.Within(t.slots[q][j].grant)
  }

  /** Replacing an entry keeps the shape when the new entry refers to no table, or to the
      same one with a wider grant, and the entry above grants what the new one does. */
  lemma PutShape(t: Tree, p: nat, i: nat, s: Slot)
    requires Shape(t) && p in t.slots && i < 512
    requires !s.Absent? ==> Permits(t, p, s.grant)
    requires s.Table? ==> t.slots[p][i].Table? && s.child == t.slots[p][i].child && t.slots[p][i].grant.Within(s.grant)
    ensures Shape(Put(t, p, i, s))
  {
    var t' := Put(t, p, i, s);
    forall q, j: nat | q in t'.slots && 0 <= j < 512 ensures SlotShape(t', q, j) {
      assert SlotShape(t, q, j);
    }
    forall q, j: nat | q in t'.slots && 0 <= j < 512 ensures SlotGrant(t', q, j) {
      assert SlotShape(t, q, j) && SlotGrant(t, q, j) && SlotGrant(t, p, i) && SlotShape(t, p, i);
    }
  }

  // ---------------------------------------------------------------- the three changes

  /** Writing a leaf maps exactly the addresses that share the way to it. */
  lemma LeafWritten(t: Tree, p: nat, v: nat, f: nat, g: Grant, x: nat)
    requires Shape(t) && p in t.slots && PathTo(t, v, t.level[p]) == Some(p)
    ensures var level := t.level[p];
            Find(Put(t, p, Index(v, level), Leaf(f, g)), x) ==
            if Agree(x, v, level, t.depth) then Some(Found(Hit(f + x % Span(level), g), level)) else Find(t, x)
  {
    var level := t.level[p];
    var i := Index(v, level);
    SamePath(t, x, v, level);
    if Through(t, x, p, i) {
      PutHere(t, p, i, Leaf(f, g), x);
    } else {
      PutElsewhere(t, p, i, Leaf(f, g), x);
    }
  }

  /** Widening the grant of a table entry changes no translation. */
  lemma Widened(t: Tree, p: nat, i: nat, g: Grant, x: nat)
    requires Shape(t) && p in t.slots && i < 512 && t.slots[p][i].Table?
    ensures Find(Put(t, p, i, Table(t.slots[p][i].child, g)), x) == Find(t, x)
  {
    var s := Table(t.slots[p][i].child, g);
    assert SlotShape(t, p, i);
    if Through(t, x, p, i) {
      PutHere(t, p, i, s, x);
      LeafAtBelow(t, p, i, s, s.child, t.level[p] - 1, x);
      TranslateFrom(t, x, t.level[p]);
    } else {
      PutElsewhere(t, p, i, s, x);
    }
  }

  function Empty(): (s: seq<Slot>)
    ensures |s| == 512 && forall i :: 0 <= i < 512 ==> s[i] == Absent
  {
    seq(512, _ => Absent)
  }

  /** `t` with an empty table at `c`, meant to be referred to by entry `i` of table `p`. */
  function Fresh(t: Tree, c: nat, p: nat, i: nat): Tree
    requires p in t.level && t.level[p] >= 1
  {
    Tree(t.slots[c := Empty()], t.level[c := t.level[p] - 1], t.parent[c := (p, i)], t.root, t.depth)
  }

  lemma FreshShape(t: Tree, c: nat, p: nat, i: nat)
    requires Shape(t) && c !in t.slots && p in t.slots && t.level[p] > 1
    ensures Shape(Fresh(t, c, p, i))
  {
    var t' := Fresh(t, c, p, i);
    forall q, j: nat | q in t'.slots && 0 <= j < 512 ensures SlotShape(t', q, j) && SlotGrant(t', q, j) {
      if q != c {
        assert SlotShape(t, q, j) && SlotGrant(t, q, j);
      }
    }
  }

  lemma {:induction false} LeafAtFresh(t: Tree, c: nat, p: nat, i: nat, q: nat, level: nat, x: nat)
    requires Shape(t) && c !in t.slots && p in t.slots && q in t.slots && t.level[q] == level
    ensures LeafAt(Fresh(t, c, p, i).slots, q, level, x) == LeafAt(t.slots, q, level, x)
    decreases level
  {
    var e := t.slots[q][Index(x, level)];
    if e.Table? {
      assert SlotShape(t, q, Index(x, level));
      LeafAtFresh(t, c, p, i, e.child, level - 1, x);
    }
  }

  lemma {:induction false} PathFresh(t: Tree, c: nat, p: nat, i: nat, x: nat, level: nat)
    requires Shape(t) && c !in t.slots && p in t.slots && 1 <= level <= t.depth
    ensures PathTo(Fresh(t, c, p, i), x, level) == PathTo(t, x, level)
    decreases t.depth - level
  {
    if level < t.depth {
      PathFresh(t, c, p, i, x, level + 1);
      if PathTo(t, x, level + 1).Some? {
        PathLevel(t, x, level + 1);
      }
    }
  }

  /** `t` with a new empty table hung under entry `i` of table `p`. */
  function Hung(t: Tree, c: nat, p: nat, i: nat, g: Grant): Tree
    requires p in t.level && p in t.slots && i < |t.slots[p]| == 512 && t.level[p] >= 1
  {
    Put(Fresh(t, c, p, i), p, i, Table(c, g))
  }

  lemma HungSlot(t: Tree, c: nat, p: nat, i: nat, g: Grant, q: nat, j: nat)
    requires Shape(t) && c !in t.slots && p in t.slots && t.level[p] > 1 && i < 512
    requires Shape(Fresh(t, c, p, i)) && q in Hung(t, c, p, i, g).slots && j < 512
    ensures SlotShape(Hung(t, c, p, i, g), q, j)
  {
    hide SlotGrant;
    assert SlotShape(Fresh(t, c, p, i), q, j) && SlotShape(t, p, i);
    assert q in t.slots ==> SlotShape(t, q, j);
  }

  lemma HungGrant(t: Tree, c: nat, p: nat, i: nat, g: Grant, q: nat, j: nat)
    requires Shape(t) && c !in t.slots && p in t.slots && t.level[p] > 1 && i < 512
    requires Shape(Fresh(t, c, p, i)) && q in Hung(t, c, p, i, g).slots && j < 512 && Permits(t, p, g)
    ensures SlotGrant(Hung(t, c, p, i, g), q, j)
  {
    var t1 := Fresh(t, c, p, i);
    assert SlotShape(t1, q, j) && SlotGrant(t1, q, j);
    assert q in t.slots ==> SlotShape(t, q, j);
  }

  lemma HungShape(t: Tree, c: nat, p: nat, i: nat, g: Grant)
    requires Shape(t) && c !in t.slots && p in t.slots && t.level[p] > 1 && i < 512
    requires Permits(t, p, g)
    ensures Shape(Hung(t, c, p, i, g)) && Permits(Hung(t, c, p, i, g), c, g)
  {
    hide SlotShape, SlotGrant;
    var t' := Hung(t, c, p, i, g);
    FreshShape(t, c, p, i);
    forall q, j: nat | q in t'.slots && 0 <= j < 512 ensures SlotShape(t', q, j) && SlotGrant(t', q, j) {
      HungSlot(t, c, p, i, g, q, j);
      HungGrant(t, c, p, i, g, q, j);
    }
    HungPermits(t, c, p, i, g);
  }

  lemma HungPermits(t: Tree, c: nat, p: nat, i: nat, g: Grant)
    requires Shape(t) && c !in t.slots && p in t.slots && t.level[p] > 1 && i < 512
    ensures Permits(Hung(t, c, p, i, g), c, g)
  {
  }

  /** Hanging an empty table under an absent entry changes no translation. */
  lemma HungTranslate(t: Tree, c: nat, p: nat, i: nat, g: Grant, x: nat)
    requires Shape(t) && c !in t.slots && p in t.slots && t.level[p] > 1 && i < 512 && t.slots[p][i].Absent?
    ensures Find(Hung(t, c, p, i, g), x) == Find(t, x)
  {
    var t1 := Fresh(t, c, p, i);
    FreshShape(t, c, p, i);
    PathFresh(t, c, p, i, x, t.level[p]);
    LeafAtFresh(t, c, p, i, t.root, t.depth, x);
    if Through(t1, x, p, i) {
      PutHere(t1, p, i, Table(c, g), x);
      TranslateFrom(t, x, t.level[p]);
    } else {
      PutElsewhere(t1, p, i, Table(c, g), x);
    }
  }

  lemma HungPath(t: Tree, c: nat, p: nat, i: nat, g: Grant, v: nat)
    requires Shape(t) && c !in t.slots && p in t.slots && t.level[p] > 1 && i < 512
    requires PathTo(t, v, t.level[p]) == Some(p) && i == Index(v, t.level[p])
    ensures PathTo(Hung(t, c, p, i, g), v, t.level[p] - 1) == Some(c)
  {
    FreshShape(t, c, p, i);
    PathFresh(t, c, p, i, v, t.level[p]);
    PutPath(Fresh(t, c, p, i), p, i, Table(c, g), v, t.level[p]);
  }

  // ---------------------------------------------------------------- pages as ranges

  function Power512(k: nat): (r: nat)
    ensures r > 0
  {
    if k == 0 then 1 else 512 * Power512(k - 1)
  }

  lemma MulSwap(a: nat, b: nat)
    ensures a * (512 * b) == 512 * (a * b)
  {
  }

  lemma {:induction false} SpanSplit(level: nat, k: nat)
    requires level >= 1
    ensures Span(level + k) == Span(level) * Power512(k)
  {
    if k > 0 {
      SpanSplit(level, k - 1);
      MulSwap(Span(level), Power512(k - 1));
    }
  }

  lemma Digit(x: nat, s: nat, n: nat)
    requires s > 0 && n > 0
    ensures s * (512 * n) > 0 && x % (s * (512 * n)) / s % 512 == x / s % 512
    ensures s * 512 > 0 && x % (s * (512 * n)) / s / 512 == x % (s * (512 * n)) / (s * 512)
  {
    ModDiv(x, s, 512 * n);
    ModDiv(x / s, 512, n);
    DivDiv(x % (s * (512 * n)), s, 512);
  }

  /** The index at a level is a digit of the page number within the width. */
  lemma PageDigit(x: nat, level: nat, depth: nat)
    requires 1 <= level <= depth
    ensures var q := x % Span(depth + 1) / Span(level);
            q % 512 == Index(x, level) && q / 512 == x % Span(depth + 1) / Span(level + 1)
  {
    var s, k := Span(level), depth - level;
    SpanSplit(level, k + 1);
    assert Power512(k + 1) == 512 * Power512(k);
    Digit(x, s, Power512(k));
  }

  /** Sharing the indices from `level` on is being in the same page of that level. */
  lemma {:induction false} AgreePage(x: nat, v: nat, level: nat, depth: nat)
    requires 1 <= level <= depth + 1
    ensures Agree(x, v, level, depth) <==> x % Span(depth + 1) / Span(level) == v % Span(depth + 1) / Span(level)
    decreases depth + 1 - level
  {
    if level <= depth {
      AgreePage(x, v, level + 1, depth);
      PageDigit(x, level, depth);
      PageDigit(v, level, depth);
    } else {
      var w := Span(depth + 1);
      ModUnique(x % w, w, 0, x % w);
      ModUnique(v % w, w, 0, v % w);
    }
  }

  /** How far `x` lies behind `v`, going round at the width `w`. */
  function Distance(x: nat, v: nat, w: nat): nat
    requires w > 0
  {
    (x % w + (w - v % w)) % w
  }

  lemma DistanceIs(x: nat, v: nat, w: nat)
    requires w > 0
    ensures Distance(x, v, w) == if x % w >= v % w then x % w - v % w else x % w + w - v % w
  {
    var a, b := x % w, v % w;
    if a >= b {
      ModUnique(a + (w - b), w, 1, a - b);
    } else {
      ModUnique(a + (w - b), w, 0, a + (w - b));
    }
  }

  /** The addresses in the page of an aligned `v` are those less than a page behind it. */
  lemma PageIsRange(x: nat, v: nat, level: nat, depth: nat)
    requires 1 <= level <= depth && v % Span(level) == 0
    ensures Agree(x, v, level, depth) <==> Distance(x, v, Span(depth + 1)) < Span(level)
    ensures Agree(x, v, level, depth) ==> x % Span(level) == Distance(x, v, Span(depth + 1))
    ensures Span(level) <= Span(depth + 1)
  {
    var s, w, k := Span(level), Span(depth + 1), depth + 1 - level;
    var a, b := x % w, v % w;
    SpanSplit(level, k);
    ModDiv(x, s, Power512(k));
    ModDiv(v, s, Power512(k));
    AgreePage(x, v, level, depth);
    DistanceIs(x, v, w);
    BlockIs(a, b, s, w, Power512(k));
  }

  /** Moving the start forward by `o` brings every later address closer by `o`. */
  lemma DistanceShift(x: nat, v: nat, u: nat, o: nat, w: nat)
    requires w > 0 && o <= w && u % w == (v + o) % w
    ensures var d := Distance(x, v, w);
            Distance(x, u, w) == if d >= o then d - o else d + w - o
  {
    DistanceIs(x, v, w);
    DistanceIs(x, u, w);
    ModShift(v, o, w);
  }

  /** An address less than the width behind another is at that distance. */
  lemma DistanceForward(v: nat, o: nat, w: nat)
    requires o < w
    ensures Distance(v + o, v, w) == o
  {
    DistanceIs(v + o, v, w);
    ModShift(v, o, w);
  }

  // ---------------------------------------------------------------- mapping a range

  /** What `x` translates to once `[v, v + length)` is mapped to `[p, p + length)`; physical
      addresses go round at `m`, virtual ones at the width of the tree. */
  function Mapped(t: Tree, v: nat, p: nat, length: nat, m: nat, g: Grant, x: nat): Option<Hit>
    requires m > 0
  {
    var d := Distance(x, v, Span(t.depth + 1));
    if d < length then Some(Hit((p + d) % m, g)) else Translate(t, x)
  }

  ghost predicate MapsRange(t0: Tree, t: Tree, v: nat, p: nat, length: nat, m: nat, g: Grant)
    requires m > 0
  {
    t.depth == t0.depth && forall x: nat :: Translate(t, x) == Mapped(t0, v, p, length, m, g, x)
  }

  lemma NothingMapped(t: Tree, v: nat, p: nat, m: nat, g: Grant)
    requires m > 0
    ensures MapsRange(t, t, v, p, 0, m, g)
  {
  }

  /** Only the page of `u` at `level` is mapped anew, to the frame `q`. */
  ghost predicate MapsPage(t: Tree, t': Tree, u: nat, q: nat, level: nat, g: Grant) {
    && t'.depth == t.depth
    && forall x: nat :: Find(t', x) ==
         if Agree(x, u, level, t.depth) then Some(Found(Hit(q + x % Span(level), g), level)) else Find(t, x)
  }

  lemma FrameOffset(p: nat, o: nat, q: nat, d: nat, s: nat, m: nat, k: nat)
    requires s > 0 && m > 0 && m == s * k && q % s == 0 && q % m == (p + o) % m && d < s
    ensures q % m + d == (p + o + d) % m
  {
    ModDiv(q, s, k);
    BlockIs(q % m, q % m, s, m, k);
    ModShift(p + o, d, m);
  }

  /** Mapping the next page extends the mapped range by that page. */
  lemma RangeStep(t0: Tree, t: Tree, t': Tree, v: nat, p: nat, o: nat, u: nat, q: nat, level: nat, m: nat, k: nat,
      g: Grant)
    requires m > 0 && MapsRange(t0, t, v, p, o, m, g) && 1 <= level <= t0.depth
    requires o + Span(level) <= Span(t0.depth + 1) && m == Span(level) * k
    requires u % Span(t0.depth + 1) == (v + o) % Span(t0.depth + 1) && u % Span(level) == 0
    requires q % m == (p + o) % m && q % Span(level) == 0
    requires MapsPage(t, t', u, q % m, level, g)
    ensures MapsRange(t0, t', v, p, o + Span(level), m, g)
  {
    var w := Span(t0.depth + 1);
    forall x: nat ensures Translate(t', x) == Mapped(t0, v, p, o + Span(level), m, g, x) {
      PageIsRange(x, u, level, t0.depth);
      DistanceShift(x, v, u, o, w);
      DistanceIs(x, v, w);
      if Agree(x, u, level, t0.depth) {
        FrameOffset(p, o, q, x % Span(level), Span(level), m, k);
      }
      assert Translate(t, x) == Mapped(t0, v, p, o, m, g, x);
    }
  }

  /** Mapping a range and then the one behind it maps both together. */
  lemma RangeJoin(t0: Tree, t: Tree, t': Tree, v: nat, p: nat, o: nat, length: nat, m: nat, g: Grant)
    requires m > 0 && MapsRange(t0, t, v, p, o, m, g) && MapsRange(t, t', v + o, p + o, length, m, g)
    requires o + length <= Span(t0.depth + 1)
    ensures MapsRange(t0, t', v, p, o + length, m, g)
  {
    hide Translate, Distance, Span;
    var w := Span(t0.depth + 1);
    forall x: nat ensures Translate(t', x) == Mapped(t0, v, p, o + length, m, g, x) {
      DistanceShift(x, v, v + o, o, w);
      assert Translate(t, x) == Mapped(t0, v, p, o, m, g, x);
      assert Translate(t', x) == Mapped(t, v + o, p + o, length, m, g, x);
    }
  }

  lemma DigitsPeriodic(x: nat, level: nat, depth: nat)
    requires 1 <= level <= depth
    ensures Index(x + Span(depth + 1), level) == Index(x, level)
    ensures (x + Span(depth + 1)) % Span(level) == x % Span(level)
  {
    SpanSplit(level, depth - level + 1);
    assert Power512(depth - level + 1) == 512 * Power512(depth - level);
    DigitPeriodic(x, Span(level), Power512(depth - level));
  }

  lemma DigitPeriodic(x: nat, s: nat, n: nat)
    requires s > 0 && n > 0
    ensures (x + s * (512 * n)) / s % 512 == x / s % 512 && (x + s * (512 * n)) % s == x % s
  {
    Digit(x, s, n);
    Digit(x + s * (512 * n), s, n);
    ModMultiple(x, s * (512 * n), 1);
    ModDiv(x, s, 512 * n);
    ModDiv(x + s * (512 * n), s, 512 * n);
  }

  lemma {:induction false} LeafAtPeriodic(slots: map<nat, seq<Slot>>, page: nat, level: nat, x: nat, depth: nat)
    requires level <= depth
    ensures level >= 1 ==> LeafAt(slots, page, level, x + Span(depth + 1)) == LeafAt(slots, page, level, x)
    decreases level
  {
    if level >= 1 {
      DigitsPeriodic(x, level, depth);
      if page in slots && |slots[page]| == 512 && slots[page][Index(x, level)].Table? {
        LeafAtPeriodic(slots, slots[page][Index(x, level)].child, level - 1, x, depth);
      }
    }
  }

  /** Addresses a width apart translate alike, so no tables map a range longer than that. */
  lemma TranslatePeriodic(t: Tree, x: nat)
    requires t.depth >= 1
    ensures Find(t, x + Span(t.depth + 1)) == Find(t, x)
  {
    LeafAtPeriodic(t.slots, t.root, t.depth, x, t.depth);
  }
}
