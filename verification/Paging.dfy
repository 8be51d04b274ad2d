/** What the page-table builders of both architectures share: where tables live, how a walk
    proceeds, and how 64-bit cursors move over a range. */
module Paging {
  import opened Options
  import opened Arith
  import opened MemoryMap
  import opened MapUpdate
  import opened Allocation
  import opened Pmm
  import opened Frames
  import opened PageTree
  import opened TableMemory
  import opened Hhdm

  // ---------------------------------------------------------------- where tables live

  /** The tables live in pages of their own that the memory manager counts as allocated. */
  ghost predicate Housed(live: seq<Entry>, t: Tree, limit: nat) {
    Below(live, limit) && forall p :: p in t.slots ==> Owned(live, p)
  }

  lemma HousedBelow(live: seq<Entry>, t: Tree, limit: nat)
    requires Housed(live, t, limit)
    ensures Below(live, limit)
  {
  }

  lemma HungHoused(live: seq<Entry>, t: Tree, limit: nat, c: nat, p: nat, i: nat, g: Grant)
    requires Housed(live, t, limit) && Owned(live, c)
    requires p in t.level && p in t.slots && i < |t.slots[p]| == 512 && t.level[p] >= 1
    ensures Housed(live, Hung(t, c, p, i, g), limit) && Hung(t, c, p, i, g).slots.Keys == t.slots.Keys + {c}
  {
  }

  lemma PutHoused(live: seq<Entry>, t: Tree, limit: nat, p: nat, i: nat, s: Slot)
    requires Housed(live, t, limit) && p in t.slots && i < |t.slots[p]|
    ensures Housed(live, Put(t, p, i, s), limit) && Put(t, p, i, s).slots.Keys == t.slots.Keys
  {
  }

  lemma ReachedRoot(t: Tree, v: nat, g: Grant)
    requires Shape(t)
    ensures Reached(t, t, v, t.root, t.depth, g)
  {
  }

  /** Tables with nothing but an empty root. */
  function Sapling(c: nat, levels: nat): Tree {
    Tree(map[c := Empty()], map[c := levels], map[], c, levels)
  }

  lemma SaplingShape(memory: map<nat, seq<nat>>, f: Format, c: nat, levels: nat)
    requires Faithful(f) && levels >= 1 && c in memory && memory[c] == Zeroed()
    ensures Shape(Sapling(c, levels)) && Encoded(memory, Sapling(c, levels), f)
    ensures forall x: nat :: HardwareTranslate(memory, f, c, levels, x) == None
  {
    var t := Sapling(c, levels);
    forall x: nat ensures HardwareTranslate(memory, f, c, levels, x) == None {
      assert t.slots[c][Index(x, levels)] == Absent;
      HardwareIsTranslate(memory, t, f, x);
    }
  }

  lemma SweepStarts(t: Tree, hhdm: nat, entries: seq<Entry>, g: Grant)
    ensures Sweeping(t, t, hhdm, entries, 0, g)
  {
  }

  /** Why an entry of the sweep may not be mapped, apart from lack of memory. */
  lemma SweepPanics(t: Tree, hhdm: nat, base: nat, length: nat)
    requires base % PAGE == 0 && length % PAGE == 0
    ensures (hhdm + base) % ADDRESS_LIMIT % PAGE != 0 ==> hhdm % PAGE != 0
    ensures ObstructedIn(t, (hhdm + base) % ADDRESS_LIMIT, length) ==> ObstructedSomewhere(t)
  {
    if hhdm % PAGE == 0 {
      WholePages(hhdm, base);
      WrapPage(hhdm + base);
    }
    if ObstructedIn(t, (hhdm + base) % ADDRESS_LIMIT, length) {
      ObstructedAnywhere(t, (hhdm + base) % ADDRESS_LIMIT, length);
    }
  }

  lemma WrapOffset(v: nat, depth: nat)
    requires 3 <= depth <= 5
    ensures v % ADDRESS_LIMIT % Span(depth + 1) == v % Span(depth + 1)
  {
    WidthValues(depth);
    WrapMod(v, Span(depth + 1), ADDRESS_LIMIT / Span(depth + 1));
  }

  /** Claiming a block moves no table. */
  lemma ClaimedHoused(live: seq<Entry>, t: Tree, c: nat, length: nat, k: Kind, live': seq<Entry>, limit: nat)
    requires Housed(live, t, limit) && Claimed(live, c, length, k, live')
    ensures Housed(live', t, limit) && c + length <= limit && c < limit
    ensures forall p :: p in t.slots ==> p + PAGE <= c || c + length <= p
  {
    ClaimedOwned(live, c, length, k, live', limit);
  }

  lemma SnapshotBelow(entries: seq<Entry>, live: seq<Entry>, limit: nat)
    requires SnapshotOf(entries, live) && Below(live, limit)
    ensures forall j :: 0 <= j < |entries| ==> entries[j].End() <= limit
  {
    forall j | 0 <= j < |entries| ensures entries[j].End() <= limit {
      var e := entries[j];
      assert e in entries;
      if e.length > 0 {
        assert e.Has(e.End() - 1);
      }
    }
  }

  lemma ReleasedHoused(live: seq<Entry>, t: Tree, frames: nat, c: nat, bytes: nat, live': seq<Entry>)
    requires Housed(live, t, frames) && c + bytes <= frames
    requires Effect(live, Request(c, bytes, Free, true), live') && Fits(live, Request(c, bytes, Free, true))
    requires forall p :: p in t.slots.Keys ==> p + PAGE <= c || c + bytes <= p
    ensures Housed(live', t, frames)
  {
    ReleasedBelow(live, c, bytes, live', frames);
    forall p | p in t.slots ensures Owned(live', p) {
      BlockReleased(live, c, bytes, live', frames, p);
    }
  }

  /** A page claimed for a table: it is none of the tables there are. */
  lemma TableClaimed(live: seq<Entry>, t: Tree, frames: nat, c: nat, live': seq<Entry>)
    requires WellFormed(live) && Housed(live, t, frames) && LowestFit(live, PAGE, PAGE, c)
    requires Effect(live, Request(c, PAGE, Allocated, true), live') && Fits(live, Request(c, PAGE, Allocated, true))
    ensures Housed(live', t, frames) && Owned(live', c) && c !in t.slots && c % PAGE == 0 && c < frames
    ensures Drawn(live, t.slots.Keys, live', t.slots.Keys + {c})
  {
    hide Effect, Fits, Owned, Tidy, CanHold, Drawn, Claimed, LowestFit;
    LowestHolds(live, PAGE, PAGE, c);
    BlockClaimed(live, c, PAGE, Allocated, live');
    ClaimedHoused(live, t, c, PAGE, Allocated, live', frames);
    DrawnOne(live, t.slots.Keys, c, live');
  }

  /** The block of a snapshot was free, and the snapshot describes nothing beyond the limit. */
  lemma SnapshotClaimed(live: seq<Entry>, t: Tree, frames: nat, limit: nat, c: nat, bytes: nat, entries: seq<Entry>,
      live1: seq<Entry>)
    requires WellFormed(live) && Housed(live, t, frames) && Below(live, limit) && LowestFit(live, bytes, PAGE, c)
    requires Effect(live, Request(c, bytes, Allocated, true), live1) && Fits(live, Request(c, bytes, Allocated, true))
    requires SnapshotOf(entries, live1)
    ensures Claimed(live, c, bytes, Allocated, live1) && Housed(live1, t, frames)
    ensures c % PAGE == 0 && c + bytes <= frames
    ensures forall j :: 0 <= j < |entries| ==> entries[j].End() <= limit
  {
    hide Effect, Fits, LowestFit, CanHold, SnapshotOf, Claimed, Tidy;
    LowestHolds(live, bytes, PAGE, c);
    BlockClaimed(live, c, bytes, Allocated, live1);
    ClaimedHoused(live, t, c, bytes, Allocated, live1, frames);
    ClaimedOwned(live, c, bytes, Allocated, live1, limit);
    SnapshotBelow(entries, live1, limit);
  }

  /** With the block released again, the tables built meanwhile are all that is gone. */
  lemma SnapshotReturned(live: seq<Entry>, pages: set<nat>, c: nat, bytes: nat, live1: seq<Entry>, live2: seq<Entry>,
      t: Tree, frames: nat, live3: seq<Entry>)
    requires WellFormed(live) && WellFormed(live2) && bytes > 0 && c + bytes <= frames
    requires Claimed(live, c, bytes, Allocated, live1) && Grown(live1, pages, live2, t.slots.Keys)
    requires Housed(live2, t, frames) && forall p :: p in pages ==> Owned(live, p)
    requires Effect(live2, Request(c, bytes, Free, true), live3) && Fits(live2, Request(c, bytes, Free, true))
    ensures Housed(live3, t, frames) && Grown(live, pages, live3, t.slots.Keys)
  {
    hide Effect, Fits, Claimed, Grown, Tidy, Owned;
    SnapshotReleasable(live, pages, live1, live2, t.slots.Keys, c, bytes);
    ReleasedHoused(live2, t, frames, c, bytes, live3);
    GrownThrough(live, pages, c, bytes, live1, live2, t.slots.Keys, live3);
  }

  // ---------------------------------------------------------------- walking down

  /** The walk down to `v` has reached table `p` at `level` without changing any translation. */
  ghost predicate Reached(t0: Tree, t: Tree, v: nat, p: nat, level: nat, g: Grant) {
    && t.root == t0.root && t.depth == t0.depth && 1 <= level <= t.depth
    && PathTo(t, v, level) == Some(p) && p in t.slots && p in t.level && t.level[p] == level
    && Permits(t, p, g)
    && forall x: nat :: Find(t, x) == Find(t0, x)
  }

  /** The least grant at least as wide as both. */
  function Widest(g: Grant, h: Grant): Grant { Grant(g.read || h.read, g.write || h.write, g.exec || h.exec) }

  /** The entry above a table grants what any entry of the table grants. */
  lemma PermitsEntry(t: Tree, p: nat, i: nat, g: Grant)
    requires Shape(t) && p in t.slots && i < 512 && t.slots[p][i].Table? && Permits(t, p, g)
    ensures Permits(t, p, Widest(t.slots[p][i].grant, g))
  {
    if p != t.root {
      var q, j := t.parent[p].0, t.parent[p].1;
      assert Refers(t, q, j, p, g);
      assert SlotGrant(t, q, j);
    }
  }

  /** A step of the walk into a new table. */
  lemma StepNew(f: Format, t0: Tree, t: Tree, memory: map<nat, seq<nat>>, v: nat, p: nat, level: nat, g: Grant, c: nat)
    requires Faithful(f) && Reached(t0, t, v, p, level, g) && Shape(t) && Encoded(memory, t, f) && level > 1
    requires t.slots[p][Index(v, level)].Absent? && c !in t.slots && f.buildable(level, Table(c, g))
    ensures var i, zeroed := Index(v, level), memory[c := Zeroed()];
            var t' := Hung(t, c, p, i, g);
            && p in zeroed && |zeroed[p]| == 512 && p in t.slots && p in t.level && |t.slots[p]| == 512
            && Shape(t') && Encoded(Poke(zeroed, p, i, f.encode(level, Table(c, g))), t', f)
            && Reached(t0, t', v, c, level - 1, g)
  {
    var i := Index(v, level);
    var t' := Hung(t, c, p, i, g);
    HungShape(t, c, p, i, g);
    EncodedFresh(memory, t, f, c, p, i);
    FreshShape(t, c, p, i);
    EncodedPut(memory[c := Zeroed()], Fresh(t, c, p, i), f, p, i, Table(c, g));
    HungPath(t, c, p, i, g, v);
    forall x: nat ensures Find(t', x) == Find(t0, x) {
      HungTranslate(t, c, p, i, g, x);
    }
  }

  /** A step of the walk into an existing table, whose entry is widened by `g`. */
  lemma StepOld(f: Format, t0: Tree, t: Tree, memory: map<nat, seq<nat>>, v: nat, p: nat, level: nat, g: Grant)
    requires Faithful(f) && Reached(t0, t, v, p, level, g) && Shape(t) && Encoded(memory, t, f)
    requires t.slots[p][Index(v, level)].Table?
    requires var s := t.slots[p][Index(v, level)]; f.buildable(level, Table(s.child, Widest(s.grant, g)))
    ensures var i, c := Index(v, level), t.slots[p][Index(v, level)].child;
            var s := Table(c, Widest(t.slots[p][i].grant, g));
            var t' := Put(t, p, i, s);
            && p in memory && |memory[p]| == 512 && |t.slots[p]| == 512
            && memory[p][i] == f.encode(level, t.slots[p][i])
            && Shape(t') && Encoded(Poke(memory, p, i, f.encode(level, s)), t', f)
            && level > 1 && Reached(t0, t', v, c, level - 1, g)
  {
    var i, c, h := Index(v, level), t.slots[p][Index(v, level)].child, t.slots[p][Index(v, level)].grant;
    var s := Table(c, Widest(h, g));
    var t' := Put(t, p, i, s);
    assert SlotShape(t, p, i) && Page(memory[p], level, t.slots[p], f);
    PermitsEntry(t, p, i, g);
    PutShape(t, p, i, s);
    EncodedPut(memory, t, f, p, i, s);
    PutPath(t, p, i, s, v, level);
    forall x: nat ensures Find(t', x) == Find(t0, x) {
      Widened(t, p, i, s.grant, x);
    }
  }

  /** The last step of the walk: the leaf is written. */
  lemma StepLeaf(f: Format, t0: Tree, t: Tree, memory: map<nat, seq<nat>>, v: nat, p: nat, level: nat, g: Grant, a: nat)
    requires Faithful(f) && Reached(t0, t, v, p, level, g) && Shape(t) && Encoded(memory, t, f)
    requires f.buildable(level, Leaf(a, g))
    ensures var i := Index(v, level);
            var t' := Put(t, p, i, Leaf(a, g));
            && p in memory && |memory[p]| == 512 && p in t.slots && |t.slots[p]| == 512
            && Shape(t') && Encoded(Poke(memory, p, i, f.encode(level, Leaf(a, g))), t', f)
            && t'.root == t0.root && MapsPage(t0, t', v, a, level, g)
  {
    var i := Index(v, level);
    var t' := Put(t, p, i, Leaf(a, g));
    PutShape(t, p, i, Leaf(a, g));
    EncodedPut(memory, t, f, p, i, Leaf(a, g));
    forall x: nat
      ensures Find(t', x) == if Agree(x, v, level, t.depth) then Some(Found(Hit(a + x % Span(level), g), level))
          else Find(t0, x)
    {
      LeafWritten(t, p, v, a, g, x);
    }
  }

  // ---------------------------------------------------------------- moving over a range

  /** The processor finds `[v, v + length)` at `[p, p + length)` and the rest where it was. */
  ghost predicate Remapped(memory0: map<nat, seq<nat>>, memory: map<nat, seq<nat>>, f: Format, root: nat, depth: nat,
      v: nat, p: nat, length: nat, m: nat, g: Grant)
    requires m > 0
  {
    forall x: nat ::
      var d := Distance(x, v, Span(depth + 1));
      HardwareTranslate(memory, f, root, depth, x) ==
      (if d < length then Some(Hit((p + d) % m, g)) else HardwareTranslate(memory0, f, root, depth, x))
  }

  /** What the processor finds in memory after a range is mapped, and what it found before. */
  lemma HardwareMaps(memory0: map<nat, seq<nat>>, t0: Tree, memory: map<nat, seq<nat>>, t: Tree, f: Format, v: nat,
      p: nat, length: nat, m: nat, g: Grant)
    requires Faithful(f) && m > 0 && Shape(t0) && Encoded(memory0, t0, f) && Shape(t) && Encoded(memory, t, f)
    requires MapsRange(t0, t, v, p, length, m, g)
    ensures t0.root == t.root ==> Remapped(memory0, memory, f, t.root, t.depth, v, p, length, m, g)
  {
    hide Shape, Encoded, Faithful, Translate, HardwareTranslate;
    forall x: nat
      ensures HardwareTranslate(memory, f, t.root, t.depth, x) == Translate(t, x)
      ensures HardwareTranslate(memory0, f, t0.root, t0.depth, x) == Translate(t0, x)
      ensures Translate(t, x) == Mapped(t0, v, p, length, m, g, x)
    {
      HardwareIsTranslate(memory, t, f, x);
      HardwareIsTranslate(memory0, t0, f, x);
    }
  }

  /** A 64-bit cursor that started at `start` and has moved by `offset`, seen modulo `m`. */
  ghost predicate Cursor(start: nat, cursor: nat, offset: nat, m: nat)
    requires m > 0
  {
    cursor % PAGE == 0 && offset % PAGE == 0 && cursor % m == (start + offset) % m
  }

  lemma CursorStarts(start: nat, m: nat)
    requires m > 0 && start % PAGE == 0
    ensures Cursor(start, start, 0, m)
  {
  }

  lemma CursorDistance(start: nat, cursor: nat, offset: nat, m: nat)
    requires m > 0 && Cursor(start, cursor, offset, m) && offset < m
    ensures Distance(cursor, start, m) == offset
  {
    DistanceIs(cursor, start, m);
    ModShift(start, offset, m);
  }

  /** Both kinds of width divide the 64-bit range. */
  lemma WidthValues(depth: nat)
    requires 3 <= depth <= 5
    ensures Span(depth + 1) == if depth == 3 then 0x80_0000_0000 else if depth == 4 then 0x1_0000_0000_0000
        else 0x200_0000_0000_0000
  {
    SpanValues();
    assert Span(4) == 512 * Span(3);
    assert Span(5) == 512 * Span(4);
    assert Span(6) == 512 * Span(5);
  }

  lemma OnePage(levels: nat)
    ensures PAGE <= Span(levels + 1)
  {
    SpanSplit(1, levels);
  }

  lemma CursorMoves(start: nat, cursor: nat, offset: nat, m: nat, pageSize: nat)
    requires m > 0 && Cursor(start, cursor, offset, m) && pageSize % PAGE == 0 && pageSize <= m
    requires (cursor + pageSize) % ADDRESS_LIMIT % m == (cursor + pageSize) % m
    ensures Cursor(start, (cursor + pageSize) % ADDRESS_LIMIT, offset + pageSize, m)
  {
    StaysAligned(cursor, offset, pageSize);
    MovedOn(start, cursor, offset, m, pageSize);
  }

  lemma StaysAligned(cursor: nat, offset: nat, pageSize: nat)
    requires cursor % PAGE == 0 && offset % PAGE == 0 && pageSize % PAGE == 0
    ensures (cursor + pageSize) % ADDRESS_LIMIT % PAGE == 0 && (offset + pageSize) % PAGE == 0
  {
    WrapPage(cursor + pageSize);
    WholePages(cursor, pageSize);
    WholePages(offset, pageSize);
  }

  lemma WrapPage(x: nat)
    ensures x % ADDRESS_LIMIT % PAGE == x % PAGE
  {
    WrapMod(x, PAGE, 0x10_0000_0000_0000);
  }

  lemma MovedOn(start: nat, cursor: nat, offset: nat, m: nat, pageSize: nat)
    requires m > 0 && cursor % m == (start + offset) % m && pageSize <= m
    ensures (cursor + pageSize) % m == (start + (offset + pageSize)) % m
  {
    ModCongruent(cursor, start + offset, pageSize, m);
    assert (start + offset) + pageSize == start + (offset + pageSize);
  }

  lemma WholePages(a: nat, b: nat)
    requires a % PAGE == 0 && b % PAGE == 0
    ensures (a + b) % PAGE == 0
  {
  }

  /** Wrapping at 64 bits is invisible modulo a divisor of the range. */
  lemma WrapMod(y: nat, m: nat, k: nat)
    requires m > 0 && ADDRESS_LIMIT == m * k
    ensures y % ADDRESS_LIMIT % m == y % m
  {
    ModDiv(y, m, k);
  }

  lemma RangeDepth(t0: Tree, t: Tree, v: nat, p: nat, o: nat, m: nat, g: Grant)
    requires m > 0 && MapsRange(t0, t, v, p, o, m, g)
    ensures t.depth == t0.depth
  {
  }
}
