/** The RISC-V page-table builder (Sv39, Sv48 and Sv57): tables are created on demand from the
    physical memory manager, and every page is as large as its position and the rest allow. */
module RiscvPtm {
  import opened Options
  import opened Arith
  import opened MemoryMap
  import opened MapUpdate
  import opened Allocation
  import opened SlotTrace
  import opened Pmm
  import opened Frames
  import opened PageTree
  import opened TableMemory
  import opened Hhdm
  import opened Paging
  import opened PageSizes
  import opened RiscvWords

  // ---------------------------------------------------------------- one step down

  /** How an entry looks to the builder's own tests. */
  predicate IsLeafEntry(entry: nat) { Bit(entry, PTE_R) || Bit(entry, PTE_W) || Bit(entry, PTE_X) }

  lemma EntryTests(level: nat, s: Slot)
    requires Buildable(level, s)
    ensures var entry := Encode(level, s);
            && (Bit(entry, PTE_V) <==> !s.Absent?)
            && (s.Table? ==> !IsLeafEntry(entry) && PteToPa(entry) == s.child)
            && (s.Leaf? ==> IsLeafEntry(entry))
  {
    match s
    case Absent =>
    case Table(c, g) => WordFields(c, Grant(false, false, false));
    case Leaf(f, g) => WordFields(f, g);
  }

  lemma EntryAt(t0: Tree, t: Tree, memory: map<nat, seq<nat>>, v: nat, p: nat, level: nat)
    requires Reached(t0, t, v, p, level, FULL) && Shape(t) && Encoded(memory, t, Riscv())
    ensures p in memory && |memory[p]| == 512 && p in t.slots && |t.slots[p]| == 512
    ensures var s, entry := t.slots[p][Index(v, level)], memory[p][Index(v, level)];
            && Buildable(level, s) && (Bit(entry, PTE_V) <==> !s.Absent?)
            && (Bit(entry, PTE_V) && !IsLeafEntry(entry) ==> s.Table? && PteToPa(entry) == s.child)
            && (Bit(entry, PTE_V) && IsLeafEntry(entry) && level > 1 ==> LargeAt(t, v, level))
  {
    assert Page(memory[p], level, t.slots[p], Riscv());
    EntryTests(level, t.slots[p][Index(v, level)]);
  }

  /** A step of the walk into an existing table; nothing is written. */
  lemma StepDown(t0: Tree, t: Tree, v: nat, p: nat, level: nat)
    requires Shape(t) && Reached(t0, t, v, p, level, FULL)
    requires t.slots[p][Index(v, level)].Table? && t.slots[p][Index(v, level)].grant == FULL
    ensures level > 1 && Reached(t0, t, v, t.slots[p][Index(v, level)].child, level - 1, FULL)
  {
    var i := Index(v, level);
    assert SlotShape(t, p, i);
    assert Refers(t, p, i, t.slots[p][i].child, FULL);
  }

  /** Upper entries permit everything, so a leaf may ask for anything. */
  lemma ReachedAnyway(t0: Tree, t: Tree, v: nat, p: nat, level: nat, g: Grant)
    requires Reached(t0, t, v, p, level, FULL)
    ensures Reached(t0, t, v, p, level, g)
  {
    if p != t.root {
      assert Refers(t, t.parent[p].0, t.parent[p].1, p, g);
    }
  }

  lemma NewEntryIs(c: nat, level: nat)
    requires c % 4096 == 0 && c < FRAME_LIMIT && level > 1
    ensures PpnField(c) + PTE_V == Encode(level, Table(c, FULL)) && PteToPa(PpnField(c) + PTE_V) == c
    ensures Buildable(level, Table(c, FULL))
  {
    WordFields(c, Grant(false, false, false));
  }

  lemma LeafEntryIs(a: nat, g: Grant, level: nat)
    requires 1 <= level <= 5 && a % Span(level) == 0 && LeafFlags(g)
    ensures PpnField(a) + PTE_V + Flags(g) == Encode(level, Leaf(a % FRAME_LIMIT, g))
    ensures Buildable(level, Leaf(a % FRAME_LIMIT, g))
  {
    SpanSplit(1, level - 1);
    ModDiv(a, 4096, Power512(level - 1));
    PpnIs(a);
    LevelDivides(level);
    ModDiv(a, Span(level), FRAME_LIMIT / Span(level));
  }

  /** Pages of every level divide the physical address space evenly. */
  lemma LevelDivides(level: nat)
    requires 1 <= level <= 5
    ensures FRAME_LIMIT == Span(level) * (FRAME_LIMIT / Span(level)) && FRAME_LIMIT / Span(level) > 0
    ensures Span(level) % PAGE == 0
  {
    SpanValues();
    assert Span(4) == 512 * Span(3);
    assert Span(5) == 512 * Span(4);
  }

  // ---------------------------------------------------------------- choosing a page size

  /** A page of `level` can start at both addresses and fits into what remains. */
  predicate Usable(vaddr: nat, paddr: nat, remain: nat, level: nat) {
    vaddr % Span(level) == 0 && paddr % Span(level) == 0 && remain >= Span(level)
  }

  /** `choose_target_level`: the largest usable page of at most three levels. */
  method ChooseTargetLevel(vaddr: nat, paddr: nat, remain: nat, maxLevels: nat) returns (level: nat)
    ensures 1 <= level <= 3 && (level > 1 ==> level <= maxLevels && Usable(vaddr, paddr, remain, level))
    ensures forall l :: level < l <= maxLevels && l <= 3 ==> !Usable(vaddr, paddr, remain, l)
  {
    level := if maxLevels < 3 then maxLevels else 3;
    while level > 1
      invariant level <= 3 && level <= maxLevels
      invariant forall l :: level < l <= maxLevels && l <= 3 ==> !Usable(vaddr, paddr, remain, l)
    {
      var pageSize := Span(level);
      if vaddr % pageSize == 0 && paddr % pageSize == 0 && remain >= pageSize {
        return;
      }
      level := level - 1;
    }
    level := 1;
  }

  class Ptm {
    const pmm: Pmm
    var memory: map<nat, seq<nat>>
    var root: nat
    var levelCount: nat
    ghost var tree: Tree

    constructor (pmm: Pmm)
      ensures this.pmm == pmm
    {
      this.pmm := pmm;
    }

    ghost predicate Valid()
      reads this, pmm, pmm.slots
      ensures Valid() ==> pmm.Valid()
    {
      && pmm.Valid()
      && Shape(tree) && Encoded(memory, tree, Riscv()) && Housed(pmm.Live(), tree, FRAME_LIMIT)
      && tree.root == root && tree.depth == levelCount && 3 <= levelCount <= 5
    }

    lemma Manager()
      requires Valid()
      ensures pmm.Valid() && WellFormed(pmm.Live()) && tree.depth == levelCount && tree.root == root
          && 3 <= levelCount <= 5
      ensures Shape(tree) && Encoded(memory, tree, Riscv()) && Housed(pmm.Live(), tree, FRAME_LIMIT)
    {
    }

    /** Mapping cannot go on: there is no page for a table, or a large page is in the way. */
    ghost predicate Stuck()
      reads this, pmm, pmm.slots
    {
      pmm.Exhausted(1) || ObstructedSomewhere(tree)
    }

    /** What the hardware translates `x` to. */
    function Translation(x: nat): Option<Hit>
      reads this
    {
      HardwareTranslate(memory, Riscv(), root, levelCount, x)
    }

    /** `ptm_init`, given the number of levels that was detected. */
    method Init(levels: nat) returns (ok: bool)
      requires pmm.Valid() && Below(pmm.Live(), FRAME_LIMIT) && 3 <= levels <= 5
      modifies this`memory, this`root, this`levelCount, this`tree, pmm, pmm.slots
      ensures ok ==> Valid() && levelCount == levels
      ensures ok ==> forall x: nat :: Translation(x) == None
      ensures !ok ==> pmm.Exhausted(1)
    {
      hide Lingering, Tidy, Drawn;
      levelCount := levels;
      tree := Tree(map[], map[], map[], 0, levels);
      var top;
      ok, top := NewTable();
      if !ok { return; }
      root := top;
      tree := Sapling(top, levels);
      SaplingShape(memory, Riscv(), top, levels);
      return true;
    }

    /** A zeroed page for a table; not `ok` when the memory manager fails. */
    method NewTable() returns (ok: bool, c: nat)
      requires pmm.Valid() && Housed(pmm.Live(), tree, FRAME_LIMIT)
      modifies this`memory, pmm, pmm.slots
      ensures ok ==> pmm.Valid() && Housed(pmm.Live(), tree, FRAME_LIMIT) && Owned(pmm.Live(), c)
      ensures ok ==> c !in tree.slots && c % 4096 == 0 && c < FRAME_LIMIT
      ensures ok ==> memory == old(memory)[c := Zeroed()]
      ensures ok ==> Drawn(old(pmm.Live()), tree.slots.Keys, pmm.Live(), tree.slots.Keys + {c})
      ensures !ok ==> pmm.Exhausted(1)
    {
      hide Effect, Fits, Owned, Lingering, Tidy, CanHold, Drawn, LowestFit, Housed, Traced, NoneSpoilt, ReachesPast,
          Need;
      ghost var live := pmm.Live();
      HousedBelow(live, tree, FRAME_LIMIT);
      BelowAlignment(live, FRAME_LIMIT);
      var r := pmm.Alloc(1);
      if !r.Address? {
        return false, 0;
      }
      c := r.address;
      TableClaimed(live, tree, FRAME_LIMIT, c, pmm.Live());
      memory := memory[c := Zeroed()];
      return true, c;
    }

    /** `map_page`; not `ok` when it panics: a level that does not exist, no memory for a
        table, or a large page in the way. */
    method MapPage(vaddr: nat, paddr: nat, targetLevel: int, g: Grant) returns (ok: bool)
      requires Valid() && LeafFlags(g)
      requires 1 <= targetLevel <= levelCount ==> paddr % Span(targetLevel) == 0
      modifies this`memory, this`tree, pmm, pmm.slots
      ensures ok ==> Valid() && 1 <= targetLevel <= levelCount
      ensures ok ==> MapsPage(old(tree), tree, vaddr, paddr % FRAME_LIMIT, targetLevel, g)
      ensures ok ==> Drawn(old(pmm.Live()), old(tree.slots.Keys), pmm.Live(), tree.slots.Keys)
      ensures !ok && 1 <= targetLevel <= levelCount ==>
          tree.depth == old(tree.depth) && (pmm.Exhausted(1) || Obstructed(tree, vaddr))
    {
      hide Shape, Encoded, Housed, Pmm.Valid, Drawn;
      if targetLevel < 1 || targetLevel > levelCount {
        return false;
      }
      ghost var live, pages, t0 := pmm.Live(), tree.slots.Keys, tree;
      DrawnNothing(live, pages);
      var table := root;
      var level := levelCount;
      ReachedRoot(tree, vaddr, FULL);
      while level > targetLevel
        invariant Valid() && targetLevel <= level
        invariant Reached(t0, tree, vaddr, table, level, FULL)
        invariant Drawn(live, pages, pmm.Live(), tree.slots.Keys)
      {
        ghost var live1, pages1 := pmm.Live(), tree.slots.Keys;
        ok, table := Descend(vaddr, table, level, t0);
        if !ok { return; }
        DrawnTwice(live, pages, live1, pages1, pmm.Live(), tree.slots.Keys);
        level := level - 1;
      }
      ReachedAnyway(t0, tree, vaddr, table, level, g);
      LeafEntryIs(paddr, g, level);
      WriteLeaf(vaddr, table, level, paddr % FRAME_LIMIT, PpnField(paddr) + PTE_V + Flags(g), g, t0);
      return true;
    }

    /** The entry that maps the page is written. */
    method WriteLeaf(vaddr: nat, table: nat, level: nat, address: nat, entry: nat, ghost g: Grant, ghost t0: Tree)
      requires Valid() && Reached(t0, tree, vaddr, table, level, g)
      requires Buildable(level, Leaf(address, g)) && entry == Encode(level, Leaf(address, g))
      modifies this`memory, this`tree
      ensures Valid() && MapsPage(t0, tree, vaddr, address, level, g) && tree.slots.Keys == old(tree.slots.Keys)
    {
      hide Shape, Encoded, Housed, Pmm.Valid, Reached, MapsPage;
      var index := Index(vaddr, level);
      ghost var t, leaf := tree, Leaf(address, g);
      StepLeaf(Riscv(), t0, t, memory, vaddr, table, level, g, address);
      PutHoused(pmm.Live(), t, FRAME_LIMIT, table, index, leaf);
      memory := Poke(memory, table, index, entry);
      tree := Put(t, table, index, leaf);
    }

    /** One level down, through a new table where there is none. */
    method Descend(vaddr: nat, table: nat, level: nat, ghost t0: Tree) returns (ok: bool, next: nat)
      requires Valid() && Reached(t0, tree, vaddr, table, level, FULL) && level > 1
      modifies this`memory, this`tree, pmm, pmm.slots
      ensures ok ==> Valid() && Reached(t0, tree, vaddr, next, level - 1, FULL)
      ensures ok ==> Drawn(old(pmm.Live()), old(tree.slots.Keys), pmm.Live(), tree.slots.Keys)
      ensures !ok ==> tree == old(tree) && (pmm.Exhausted(1) || Obstructed(tree, vaddr))
    {
      hide Shape, Encoded, Housed, Pmm.Valid, Reached, Drawn;
      DrawnNothing(pmm.Live(), tree.slots.Keys);
      var index := Index(vaddr, level);
      EntryAt(t0, tree, memory, vaddr, table, level);
      var entry := memory[table][index];
      if !Bit(entry, PTE_V) {
        var child;
        ghost var t, m := tree, memory;
        ok, child := NewTable();
        if !ok { return false, 0; }
        NewEntryIs(child, level);
        StepNew(Riscv(), t0, t, m, vaddr, table, level, FULL, child);
        entry := PpnField(child) + PTE_V;
        memory := Poke(memory, table, index, entry);
        tree := Hung(t, child, table, index, FULL);
        HungHoused(pmm.Live(), t, FRAME_LIMIT, child, table, index, FULL);
      } else if IsLeafEntry(entry) {
        return false, 0;
      } else {
        StepDown(t0, tree, vaddr, table, level);
      }
      return true, PteToPa(entry);
    }

    /** `ptm_map`: not `ok` when it panics.  Addresses are 64-bit and wrap around. */
    method Map(vaddr0: nat, paddr0: nat, length: nat, g: Grant) returns (ok: bool)
      requires Valid() && vaddr0 < ADDRESS_LIMIT && paddr0 < ADDRESS_LIMIT && length <= Span(levelCount + 1)
      requires LeafFlags(g)
      modifies this`memory, this`tree, pmm, pmm.slots
      ensures ok ==> Valid()
      ensures ok ==> paddr0 % PAGE == 0 && vaddr0 % PAGE == 0 && length % PAGE == 0
      ensures ok ==> MapsRange(old(tree), tree, vaddr0, paddr0, length, FRAME_LIMIT, g)
      ensures ok ==> Remapped(old(memory), memory, Riscv(), root, levelCount, vaddr0, paddr0, length, FRAME_LIMIT, g)
      ensures ok ==> forall x: nat :: vaddr0 <= x < vaddr0 + length ==>
          && Stamped(Final(memory, root, levelCount, x), x, (paddr0 + (x - vaddr0)) % 0x100_0000_0000_0000, g)
          && Final(memory, root, levelCount, x).value.level == Largest(vaddr0, paddr0, length, x - vaddr0, true)
      ensures ok ==> Drawn(old(pmm.Live()), old(tree.slots.Keys), pmm.Live(), tree.slots.Keys)
      ensures !ok ==>
          || paddr0 % PAGE != 0 || vaddr0 % PAGE != 0 || length % PAGE != 0
          || pmm.Exhausted(1) || ObstructedIn(tree, vaddr0, length)
    {
      hide Valid, Pmm.Valid, Shape, Encoded, Housed, MapsRange, MapsPage, Drawn, Remapped, Cursor, Obstructed,
          ObstructedIn, Pmm.Exhausted, Final, Sized, Largest;
      Manager();
      if paddr0 % PAGE != 0 || vaddr0 % PAGE != 0 || length % PAGE != 0 {
        return false;
      }
      ghost var t0, memory0, live := tree, memory, pmm.Live();
      var vaddr: nat, paddr: nat, offset: nat := vaddr0, paddr0, 0;
      NothingMapped(t0, vaddr0, paddr0, FRAME_LIMIT, g);
      SizedStarts(t0, vaddr0, paddr0, length, true);
      CursorStarts(vaddr0, Span(t0.depth + 1));
      CursorStarts(paddr0, FRAME_LIMIT);
      DrawnNothing(live, t0.slots.Keys);
      while offset < length
        invariant Valid() && offset <= length && tree.depth == t0.depth
        invariant Cursor(vaddr0, vaddr, offset, Span(t0.depth + 1)) && Cursor(paddr0, paddr, offset, FRAME_LIMIT)
        invariant MapsRange(t0, tree, vaddr0, paddr0, offset, FRAME_LIMIT, g)
        invariant Sized(tree, vaddr0, paddr0, offset, length, true)
        invariant Drawn(live, t0.slots.Keys, pmm.Live(), tree.slots.Keys)
      {
        var level := ChooseTargetLevel(vaddr, paddr, length - offset, levelCount);
        SmallestUsable(vaddr0, vaddr, paddr0, paddr, offset, length, t0.depth);
        var pageSize := Span(level);
        ghost var t, live1 := tree, pmm.Live();
        ok := MapPage(vaddr, paddr, level, g);
        if !ok {
          if Obstructed(tree, vaddr) {
            CursorDistance(vaddr0, vaddr, offset, Span(t0.depth + 1));
            ObstructedHere(tree, vaddr0, length, vaddr);
          }
          return;
        }
        DrawnTwice(live, t0.slots.Keys, live1, t.slots.Keys, pmm.Live(), tree.slots.Keys);
        PageMapped(t0, t, tree, vaddr0, paddr0, offset, vaddr, paddr, level, g, length);
        PageSized(t0, t, tree, vaddr0, paddr0, offset, vaddr, paddr, level, g, length);
        vaddr := (vaddr + pageSize) % ADDRESS_LIMIT;
        paddr := (paddr + pageSize) % ADDRESS_LIMIT;
        offset := offset + pageSize;
      }
      Manager();
      HardwareMaps(memory0, t0, memory, tree, Riscv(), vaddr0, paddr0, length, FRAME_LIMIT, g);
      RangeStamped(memory, t0, tree, vaddr0, paddr0, length, g);
      return true;
    }

    /** `ptm_create_hhdm_mappings`: the memory map is copied, the copy is swept while mapping
        it changes the memory map itself, and the copy is released. */
    method CreateHhdmMappings(hhdmOffset: nat) returns (ok: bool, ghost entries: seq<Entry>)
      requires Valid() && hhdmOffset < ADDRESS_LIMIT && Below(pmm.Live(), Span(levelCount + 1))
      modifies this`memory, this`tree, pmm, pmm.slots
      ensures ok ==> Valid()
      ensures ok ==> Grown(old(pmm.Live()), old(tree.slots.Keys), pmm.Live(), tree.slots.Keys)
      ensures ok ==> DirectlyMapped(old(tree), tree, old(pmm.Live()), hhdmOffset, Grant(true, true, false))
      ensures ok ==> forall a: nat :: Cover(old(pmm.Live()), a) != [] && Cover(old(pmm.Live()), a) != [Bad] ==>
          Stamped(Final(memory, root, levelCount, hhdmOffset + a), hhdmOffset + a, a, Grant(true, true, false))
      ensures ok ==> Sources(entries, old(pmm.Live()), old(pmm.Dead()))
      ensures ok ==> BadSkipped(old(tree), tree, old(pmm.Live()), old(pmm.Dead()), entries, hhdmOffset,
          Grant(true, true, false))
      ensures ok && old(pmm.Unspoilt()) ==> BadUntouched(old(tree), tree, old(pmm.Live()), hhdmOffset)
      ensures !ok ==>
        || hhdmOffset % PAGE != 0 || Stuck() || pmm.Exhausted(SnapshotPages(old(pmm.size)))
        || SnapshotRefused(old(pmm.Live())) || Overruns(old(pmm.Live()))
    {
      hide Shape, Encoded, Lingering, Tidy, MapsRange, Drawn, Sweeping, Effect, Fits, LowestFit, CanHold, SnapshotOf,
          DirectlyMapped, Claimed, Grown, Sources, BadSkipped, BadUntouched, NoneSpoilt, Traced, Stamped, Final;
      entries := [];
      ghost var live, dead, t0 := pmm.Live(), pmm.Dead(), tree;
      ghost var limit := if FRAME_LIMIT <= Span(levelCount + 1) then FRAME_LIMIT else Span(levelCount + 1);
      WidthValues(levelCount);
      BelowAlignment(live, FRAME_LIMIT);
      var snapshot := pmm.CreateSnapshot();
      if !snapshot.Taken? {
        return false, [];
      }
      entries := snapshot.entries;
      ghost var live1, c, bytes := pmm.Live(), snapshot.phys, snapshot.bytes;
      SnapshotClaimed(live, t0, FRAME_LIMIT, limit, c, bytes, snapshot.entries, live1);
      ok := Sweep(hhdmOffset, snapshot.entries, live1, limit);
      if !ok { return; }
      ghost var live2 := pmm.Live();
      SweepPromises(t0, tree, hhdmOffset, entries, Grant(true, true, false), live, dead, c, bytes, live1);
      DrawnGrown(live1, t0.slots.Keys, live2, tree.slots.Keys);
      SnapshotReleasable(live, t0.slots.Keys, live1, live2, tree.slots.Keys, c, bytes);
      var o := pmm.FreeSnapshot(snapshot);
      if !o.Settled? {
        return false, entries;
      }
      SnapshotReturned(live, t0.slots.Keys, c, bytes, live1, live2, tree, FRAME_LIMIT, pmm.Live());
      DirectStamped(memory, t0, tree, live, hhdmOffset, Grant(true, true, false));
    }

    /** The loop over the entries of the copy. */
    method Sweep(hhdmOffset: nat, entries: seq<Entry>, ghost live1: seq<Entry>, ghost limit: nat) returns (ok: bool)
      requires Valid() && hhdmOffset < ADDRESS_LIMIT && pmm.Live() == live1
      requires limit <= FRAME_LIMIT && limit <= Span(levelCount + 1) && limit % PAGE == 0
      requires forall j :: 0 <= j < |entries| ==> entries[j].End() <= limit
      modifies this`memory, this`tree, pmm, pmm.slots
      ensures ok ==> Valid()
      ensures ok ==> Sweeping(old(tree), tree, hhdmOffset, entries, |entries|, Grant(true, true, false))
      ensures ok ==> Drawn(live1, old(tree.slots.Keys), pmm.Live(), tree.slots.Keys)
      ensures !ok ==> hhdmOffset % PAGE != 0 || Stuck()
    {
      hide Shape, Encoded, Housed, Pmm.Valid, MapsRange, Drawn, Sweeping, Remapped, ObstructedIn, ObstructedSomewhere,
          Pmm.Exhausted, PagesBase, PagesLength;
      ghost var t0, pages := tree, tree.slots.Keys;
      DrawnNothing(live1, pages);
      SweepStarts(t0, hhdmOffset, entries, Grant(true, true, false));
      for i := 0 to |entries|
        invariant Valid() && levelCount == t0.depth
        invariant Sweeping(t0, tree, hhdmOffset, entries, i, Grant(true, true, false))
        invariant Drawn(live1, pages, pmm.Live(), tree.slots.Keys)
      {
        var entry := entries[i];
        ghost var t, liveT := tree, pmm.Live();
        if entry.kind == Bad {
          SweepSkip(t0, t, hhdmOffset, entries, i, Grant(true, true, false));
          continue;
        }
        var base, length := WholePagesOf(entry);
        PagesRange(entry, limit);
        WrapOffset(hhdmOffset + base, levelCount);
        ok := Map((hhdmOffset + base) % ADDRESS_LIMIT, base, length, Grant(true, true, false));
        if !ok {
          SweepPanics(tree, hhdmOffset, base, length);
          return;
        }
        SweepStep(t0, t, tree, hhdmOffset, entries, i, Grant(true, true, false), (hhdmOffset + base) % ADDRESS_LIMIT,
            FRAME_LIMIT, limit);
        DrawnTwice(live1, pages, liveT, t.slots.Keys, pmm.Live(), tree.slots.Keys);
      }
      return true;
    }
  }

  /** Every address of a mapped range ends at an entry with the bits that were asked for. */
  lemma RangeStamped(memory: map<nat, seq<nat>>, t0: Tree, t: Tree, v: nat, p: nat, length: nat, g: Grant)
    requires Shape(t) && Encoded(memory, t, Riscv()) && t.depth <= 5 && length <= Span(t.depth + 1)
    requires MapsRange(t0, t, v, p, length, FRAME_LIMIT, g) && Sized(t, v, p, length, length, true)
    ensures forall x: nat :: v <= x < v + length ==>
        && Stamped(Final(memory, t.root, t.depth, x), x, (p + (x - v)) % 0x100_0000_0000_0000, g)
        && Final(memory, t.root, t.depth, x).value.level == Largest(v, p, length, x - v, true)
  {
    hide Shape, Encoded, Final, Find, Distance, Largest, Unentered;
    forall x: nat | v <= x < v + length
      ensures Stamped(Final(memory, t.root, t.depth, x), x, (p + (x - v)) % 0x100_0000_0000_0000, g)
      ensures Final(memory, t.root, t.depth, x).value.level == Largest(v, p, length, x - v, true)
    {
      DistanceForward(v, x - v, Span(t.depth + 1));
      RangeDepth(t0, t, v, p, length, FRAME_LIMIT, g);
      assert Translate(t, x) == Mapped(t0, v, p, length, FRAME_LIMIT, g, x);
      FinalIs(memory, t, x);
    }
  }

  /** Every good address of the direct map ends at an entry with the bits of its grant. */
  lemma DirectStamped(memory: map<nat, seq<nat>>, t0: Tree, t: Tree, live: seq<Entry>, hhdm: nat, g: Grant)
    requires Shape(t) && Encoded(memory, t, Riscv()) && t.depth == t0.depth <= 5
    requires DirectlyMapped(t0, t, live, hhdm, g) && Below(live, Span(t0.depth + 1))
    ensures forall a: nat :: Cover(live, a) != [] && Cover(live, a) != [Bad] ==>
        Stamped(Final(memory, t.root, t.depth, hhdm + a), hhdm + a, a, g)
  {
    hide Shape, Encoded, Stamped, Final, Find, Distance, NoMemoryNear, Cover;
    forall a: nat | Cover(live, a) != [] && Cover(live, a) != [Bad]
      ensures Stamped(Final(memory, t.root, t.depth, hhdm + a), hhdm + a, a, g)
    {
      assert a < Span(t0.depth + 1);
      DistanceForward(hhdm, a, Span(t0.depth + 1));
      assert Translate(t, hhdm + a) == Some(Hit(a, g));
      FinalIs(memory, t, hhdm + a);
    }
  }

  /** A 4 KiB page can always be mapped next. */
  lemma SmallestUsable(v: nat, u: nat, p: nat, q: nat, offset: nat, length: nat, depth: nat)
    requires Cursor(v, u, offset, Span(depth + 1)) && Cursor(p, q, offset, FRAME_LIMIT)
    requires offset < length && length % PAGE == 0
    ensures Usable(u, q, length - offset, 1)
  {
    SpanValues();
    hide Span;
  }

  lemma PageMapped(t0: Tree, t: Tree, t': Tree, v: nat, p: nat, o: nat, u: nat, q: nat, level: nat, g: Grant,
      length: nat)
    requires 3 <= t0.depth <= 5 && MapsRange(t0, t, v, p, o, FRAME_LIMIT, g) && 1 <= level <= t0.depth
    requires Cursor(v, u, o, Span(t0.depth + 1)) && Cursor(p, q, o, FRAME_LIMIT)
    requires o <= length <= Span(t0.depth + 1) && Usable(u, q, length - o, level)
    requires MapsPage(t, t', u, q % FRAME_LIMIT, level, g)
    ensures t'.depth == t0.depth && MapsRange(t0, t', v, p, o + Span(level), FRAME_LIMIT, g)
    ensures Cursor(v, (u + Span(level)) % ADDRESS_LIMIT, o + Span(level), Span(t0.depth + 1))
    ensures Cursor(p, (q + Span(level)) % ADDRESS_LIMIT, o + Span(level), FRAME_LIMIT)
  {
    hide MapsRange, MapsPage, Span;
    LevelDivides(level);
    WidthValues(t0.depth);
    RangeDepth(t0, t, v, p, o, FRAME_LIMIT, g);
    RangeStep(t0, t, t', v, p, o, u, q, level, FRAME_LIMIT, FRAME_LIMIT / Span(level), g);
    RangeDepth(t0, t', v, p, o + Span(level), FRAME_LIMIT, g);
    WrapMod(u + Span(level), Span(t0.depth + 1), ADDRESS_LIMIT / Span(t0.depth + 1));
    WrapMod(q + Span(level), FRAME_LIMIT, 0x100);
    CursorMoves(v, u, o, Span(t0.depth + 1), Span(level));
    CursorMoves(p, q, o, FRAME_LIMIT, Span(level));
  }

  /** The level that was chosen is the largest there can be. */
  lemma PageSized(t0: Tree, t: Tree, t': Tree, v: nat, p: nat, o: nat, u: nat, q: nat, level: nat, g: Grant,
      length: nat)
    requires 3 <= t0.depth <= 5 && t.depth == t0.depth && Sized(t, v, p, o, length, true)
    requires Cursor(v, u, o, Span(t0.depth + 1)) && Cursor(p, q, o, FRAME_LIMIT)
    requires o <= length <= Span(t0.depth + 1) && 1 <= level <= 3 && Usable(u, q, length - o, level)
    requires level < 3 ==> !Usable(u, q, length - o, 3)
    requires level < 2 ==> !Usable(u, q, length - o, 2)
    requires MapsPage(t, t', u, q % FRAME_LIMIT, level, g)
    ensures Sized(t', v, p, o + Span(level), length, true)
  {
    hide MapsPage, Sized, Opening;
    SpanValues();
    WidthValues(t0.depth);
    var w := Span(t0.depth + 1);
    SameOpening(v, u, p, q, length, o, w, w / 0x4000_0000, FRAME_LIMIT, FRAME_LIMIT / 0x4000_0000);
    SizedStep(t, t', v, p, o, length, true, u, q % FRAME_LIMIT, level, g);
  }
}
