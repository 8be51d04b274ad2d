/** The x86-64 page-table builder: tables are created on demand from the physical memory
    manager, and ranges are mapped with the largest pages their alignment allows. */
module X86Ptm {
  import opened Options
  import opened Arith
  import opened MemoryMap
  import opened MapUpdate
  import opened Allocation
  import opened SlotTrace
  import opened Pmm
  import opened Frames
  import opened PageTree
  import opened TableMemory
  import opened Hhdm
  import opened Paging
  import opened PageSizes
  import opened X86Words

  const SIZE_4K: nat := 4096
  const SIZE_2M: nat := SIZE_4K * 512
  const SIZE_1G: nat := SIZE_2M * 512

  function Wanted(rw: bool, nx: bool): Grant { Grant(true, rw, !nx) }

  // ---------------------------------------------------------------- one step down

  /** The entry written for a missing table. */
  function NewEntry(c: nat, rw: bool, nx: bool): nat {
    var entry := PRESENT + Address4K(c);
    var entry := if nx then SetBit(entry, NX) else entry;
    if rw then SetBit(entry, RW) else entry
  }

  /** The entry of an existing table, opened up for one more mapping below it. */
  function OpenedEntry(entry: nat, rw: bool, nx: bool): nat {
    var entry := if nx then entry else ClearBit(entry, NX);
    if rw then SetBit(entry, RW) else entry
  }

  /** The entry written for a page. */
  function PageEntry(address: nat, large: bool, rw: bool, nx: bool): nat {
    var entry := PRESENT + address;
    var entry := if large then SetBit(entry, PS) else entry;
    var entry := if rw then SetBit(entry, RW) else entry;
    if nx then SetBit(entry, NX) else entry
  }

  lemma NewEntryIs(c: nat, rw: bool, nx: bool, level: nat)
    requires c % 4096 == 0 && c < FRAME_LIMIT && level > 1
    ensures NewEntry(c, rw, nx) == Encode(level, Table(c, Wanted(rw, nx))) && Address4K(NewEntry(c, rw, nx)) == c
  {
    MaskIs(c);
    ModUnique(c, FRAME_LIMIT, 0, c);
    WordSet(c, false, false, false);
    WordSet(c, false, false, nx);
    WordAddress(c, false, rw, nx);
  }

  lemma OpenedEntryIs(cpu: Cpu, c: nat, g: Grant, rw: bool, nx: bool, level: nat)
    requires Buildable(cpu, level, Table(c, g))
    ensures var w := OpenedEntry(Encode(level, Table(c, g)), rw, nx);
            w == Encode(level, Table(c, Widest(g, Wanted(rw, nx))))
                && Buildable(cpu, level, Table(c, Widest(g, Wanted(rw, nx)))) && Address4K(w) == c
  {
    WordSet(c, false, g.write, !g.exec);
    WordSet(c, false, g.write, !g.exec && nx);
    WordAddress(c, false, g.write || rw, !g.exec && nx);
  }

  lemma PageEntryIs(a: nat, large: bool, rw: bool, nx: bool)
    requires a % 4096 == 0 && a < FRAME_LIMIT
    ensures PageEntry(a, large, rw, nx) == Word(a, large, rw, nx)
  {
    WordSet(a, false, false, false);
    WordSet(a, large, false, false);
    WordSet(a, large, rw, false);
  }

  /** How an entry of the builder looks to its own tests. */
  lemma EntryTests(cpu: Cpu, level: nat, s: Slot)
    requires Buildable(cpu, level, s)
    ensures Bit(Encode(level, s), PRESENT) <==> !s.Absent?
    ensures s.Table? ==> !Bit(Encode(level, s), PS)
    ensures s.Leaf? && level > 1 ==> Bit(Encode(level, s), PS)
  {
    if !s.Absent? {
      var a, g := if s.Table? then s.child else s.frame, s.grant;
      SpanValues();
      SpanPages(a);
      WordFlags(a, s.Leaf? && level > 1, g.write, !g.exec);
    }
  }

  lemma EntryAt(cpu: Cpu, t0: Tree, t: Tree, memory: map<nat, seq<nat>>, v: nat, p: nat, level: nat, g: Grant)
    requires Reached(t0, t, v, p, level, g) && Shape(t) && Encoded(memory, t, X86(cpu)) && level > 1
    ensures p in memory && |memory[p]| == 512 && p in t.slots && |t.slots[p]| == 512
    ensures var s, entry := t.slots[p][Index(v, level)], memory[p][Index(v, level)];
            && entry == Encode(level, s) && Buildable(cpu, level, s)
            && (Bit(entry, PRESENT) <==> !s.Absent?) && (Bit(entry, PRESENT) && !Bit(entry, PS) ==> s.Table?)
            && (Bit(entry, PRESENT) && Bit(entry, PS) ==> LargeAt(t, v, level))
  {
    assert Page(memory[p], level, t.slots[p], X86(cpu));
    EntryTests(cpu, level, t.slots[p][Index(v, level)]);
  }

  lemma AlignedFrame(paddr: nat, level: nat)
    requires 1 <= level <= 3 && paddr % Span(level) == 0
    ensures paddr % FRAME_LIMIT % Span(level) == 0 && paddr % FRAME_LIMIT % 4096 == 0 && paddr % 4096 == 0
  {
    SpanValues();
    SpanPages(paddr);
    SpanPages(paddr % FRAME_LIMIT);
    ModDiv(paddr, 4096, 0x80_0000_0000);
    ModDiv(paddr, 0x20_0000, 0x4000_0000);
    ModDiv(paddr, 0x4000_0000, 0x20_0000);
  }

  class Ptm {
    const pmm: Pmm
    const nxSupport: bool
    const pdpe1gbSupport: bool
    const cpu: Cpu := Cpu(nxSupport, pdpe1gbSupport)
    var memory: map<nat, seq<nat>>
    var root: nat
    var levelCount: nat
    ghost var tree: Tree

    constructor (pmm: Pmm, nxSupport: bool, pdpe1gbSupport: bool)
      ensures this.pmm == pmm && this.nxSupport == nxSupport && this.pdpe1gbSupport == pdpe1gbSupport
    {
      this.pmm := pmm;
      this.nxSupport := nxSupport;
      this.pdpe1gbSupport := pdpe1gbSupport;
    }

    ghost predicate Valid()
      reads this, pmm, pmm.slots
      ensures Valid() ==> pmm.Valid()
    {
      && pmm.Valid()
      && Shape(tree) && Encoded(memory, tree, X86(cpu)) && Housed(pmm.Live(), tree, FRAME_LIMIT)
      && tree.root == root && tree.depth == levelCount && 4 <= levelCount <= 5
    }

    lemma Manager()
      requires Valid()
      ensures pmm.Valid() && WellFormed(pmm.Live()) && tree.depth == levelCount && tree.root == root
          && 4 <= levelCount <= 5
      ensures Shape(tree) && Encoded(memory, tree, X86(cpu)) && Housed(pmm.Live(), tree, FRAME_LIMIT)
    {
    }

    /** Mapping cannot go on: there is no page for a table, or a large page is in the way. */
    ghost predicate Stuck()
      reads this, pmm, pmm.slots
    {
      pmm.Exhausted(1) || ObstructedSomewhere(tree)
    }

    /** What the processor translates `x` to. */
    function Translation(x: nat): Option<Hit>
      reads this
    {
      HardwareTranslate(memory, X86(cpu), root, levelCount, x)
    }

    /** `ptm_init`, given the number of levels the processor uses. */
    method Init(levels: nat) returns (ok: bool)
      requires pmm.Valid() && Below(pmm.Live(), FRAME_LIMIT) && 4 <= levels <= 5
      modifies this`memory, this`root, this`levelCount, this`tree, pmm, pmm.slots
      ensures ok ==> Valid() && levelCount == levels
      ensures ok ==> forall x: nat :: Translation(x) == None
      ensures !ok ==> pmm.Exhausted(1)
    {
      hide Lingering, Tidy, Drawn;
      tree := Tree(map[], map[], map[], 0, levels);
      ghost var none := tree;
      var topPagemap;
      ok, topPagemap := NewTable();
      if !ok { return; }
      root := topPagemap;
      levelCount := levels;
      tree := Sapling(topPagemap, levels);
      SaplingShape(memory, X86(cpu), topPagemap, levels);
      return true;
    }

    /** A zeroed page for a table; not `ok` when the memory manager fails. */
    method NewTable() returns (ok: bool, c: nat)
      requires pmm.Valid() && Housed(pmm.Live(), tree, FRAME_LIMIT)
      modifies this`memory, pmm, pmm.slots
      ensures ok ==> pmm.Valid() && Housed(pmm.Live(), tree, FRAME_LIMIT) && Owned(pmm.Live(), c)
      ensures ok ==> c !in tree.slots && c % 4096 == 0 && c < FRAME_LIMIT
      ensures ok ==> memory == old(memory)[c := Zeroed()]
      ensures ok ==> Drawn(old(pmm.Live()), tree.slots.Keys, pmm.Live(), tree.slots.Keys + {c})
      ensures !ok ==> pmm.Exhausted(1)
    {
      hide Effect, Fits, Owned, Lingering, Tidy, CanHold, Drawn, LowestFit, Housed, Traced, NoneSpoilt, ReachesPast,
          Need;
      ghost var live := pmm.Live();
      HousedBelow(live, tree, FRAME_LIMIT);
      BelowAlignment(live, FRAME_LIMIT);
      var r := pmm.Alloc(1);
      if !r.Address? {
        return false, 0;
      }
      c := r.address;
      TableClaimed(live, tree, FRAME_LIMIT, c, pmm.Live());
      memory := memory[c := Zeroed()];
      return true, c;
    }

    /** `map_page`; not `ok` when it panics: no memory for a table, or a large page in the way. */
    method MapPage(vaddr: nat, paddr: nat, pageSize: nat, rw: bool, nx: bool) returns (ok: bool)
      requires Valid() && (pageSize == SIZE_4K || pageSize == SIZE_2M || pageSize == SIZE_1G)
      requires paddr % pageSize == 0 && (pageSize == SIZE_1G ==> pdpe1gbSupport) && (nx ==> nxSupport)
      modifies this`memory, this`tree, pmm, pmm.slots
      ensures ok ==> Valid()
      ensures ok ==> MapsPage(old(tree), tree, vaddr, paddr % FRAME_LIMIT, LevelOf(pageSize), Wanted(rw, nx))
      ensures ok ==> Drawn(old(pmm.Live()), old(tree.slots.Keys), pmm.Live(), tree.slots.Keys)
      ensures !ok ==> tree.depth == old(tree.depth) && (pmm.Exhausted(1) || Obstructed(tree, vaddr))
    {
      hide Shape, Encoded, Housed, Pmm.Valid, Drawn;
      ghost var live, pages := pmm.Live(), tree.slots.Keys;
      DrawnNothing(live, pages);
      var lowestLevel := if pageSize == SIZE_4K then 1 else if pageSize == SIZE_2M then 2 else 3;
      ghost var t0 := tree;
      var currentTable := root;
      var level := levelCount;
      ReachedRoot(tree, vaddr, Wanted(rw, nx));
      while level > lowestLevel
        invariant Valid() && lowestLevel <= level
        invariant Reached(t0, tree, vaddr, currentTable, level, Wanted(rw, nx))
        invariant Drawn(live, pages, pmm.Live(), tree.slots.Keys)
      {
        ghost var live1, pages1 := pmm.Live(), tree.slots.Keys;
        ok, currentTable := Descend(vaddr, currentTable, level, rw, nx, t0);
        if !ok { return; }
        DrawnTwice(live, pages, live1, pages1, pmm.Live(), tree.slots.Keys);
        level := level - 1;
      }
      var addressMask := if pageSize == SIZE_4K then Address4K(paddr) else if pageSize == SIZE_2M then Address2M(paddr)
          else Address1G(paddr);
      SpanValues();
      MaskIs(paddr);
      AlignedFrame(paddr, level);
      PageEntryIs(addressMask, level > 1, rw, nx);
      WriteLeaf(vaddr, currentTable, level, addressMask, PageEntry(addressMask, pageSize != SIZE_4K, rw, nx),
          Wanted(rw, nx), t0);
      return true;
    }

    /** The entry that maps the page is written. */
    method WriteLeaf(vaddr: nat, table: nat, level: nat, address: nat, entry: nat, ghost g: Grant, ghost t0: Tree)
      requires Valid() && Reached(t0, tree, vaddr, table, level, g)
      requires Buildable(cpu, level, Leaf(address, g)) && entry == Encode(level, Leaf(address, g))
      modifies this`memory, this`tree
      ensures Valid() && MapsPage(t0, tree, vaddr, address, level, g) && tree.slots.Keys == old(tree.slots.Keys)
    {
      hide Shape, Encoded, Housed, Pmm.Valid, Reached, MapsPage;
      var index := Index(vaddr, level);
      ghost var t, leaf := tree, Leaf(address, g);
      StepLeaf(X86(cpu), t0, t, memory, vaddr, table, level, g, address);
      PutHoused(pmm.Live(), t, FRAME_LIMIT, table, index, leaf);
      memory := Poke(memory, table, index, entry);
      tree := Put(t, table, index, leaf);
    }

    /** One level down: the entry on the way is made to refer to a table and opened up. */
    method Descend(vaddr: nat, currentTable: nat, level: nat, rw: bool, nx: bool, ghost t0: Tree)
        returns (ok: bool, next: nat)
      requires Valid() && Reached(t0, tree, vaddr, currentTable, level, Wanted(rw, nx)) && level > 1
      requires nx ==> nxSupport
      modifies this`memory, this`tree, pmm, pmm.slots
      ensures ok ==> Valid() && Reached(t0, tree, vaddr, next, level - 1, Wanted(rw, nx))
      ensures ok ==> Drawn(old(pmm.Live()), old(tree.slots.Keys), pmm.Live(), tree.slots.Keys)
      ensures !ok ==> tree == old(tree) && (pmm.Exhausted(1) || Obstructed(tree, vaddr))
    {
      hide Valid, Shape, Encoded, Housed, Pmm.Valid, Reached, Drawn;
      Manager();
      var index := Index(vaddr, level);
      EntryAt(cpu, t0, tree, memory, vaddr, currentTable, level, Wanted(rw, nx));
      var entry := memory[currentTable][index];
      if !Bit(entry, PRESENT) {
        ok, entry := HangTable(vaddr, currentTable, level, rw, nx, t0);
      } else {
        if Bit(entry, PS) {
          return false, 0;
        }
        DrawnNothing(pmm.Live(), tree.slots.Keys);
        entry := OpenTable(vaddr, currentTable, level, rw, nx, t0);
        ok := true;
      }
      next := Address4K(entry);
    }

    /** A new table is entered where there was nothing. */
    method HangTable(vaddr: nat, currentTable: nat, level: nat, rw: bool, nx: bool, ghost t0: Tree)
        returns (ok: bool, entry: nat)
      requires Valid() && Reached(t0, tree, vaddr, currentTable, level, Wanted(rw, nx)) && level > 1
      requires nx ==> nxSupport
      requires currentTable in tree.slots && |tree.slots[currentTable]| == 512
          && tree.slots[currentTable][Index(vaddr, level)].Absent?
      modifies this`memory, this`tree, pmm, pmm.slots
      ensures ok ==> Valid() && Reached(t0, tree, vaddr, Address4K(entry), level - 1, Wanted(rw, nx))
      ensures ok ==> Drawn(old(pmm.Live()), old(tree.slots.Keys), pmm.Live(), tree.slots.Keys)
      ensures !ok ==> pmm.Exhausted(1) && tree == old(tree)
    {
      hide Shape, Encoded, Housed, Pmm.Valid, Reached, Drawn;
      var newTable;
      ghost var t, m := tree, memory;
      ok, newTable := NewTable();
      if !ok { return false, 0; }
      NewEntryIs(newTable, rw, nx, level);
      StepNew(X86(cpu), t0, t, m, vaddr, currentTable, level, Wanted(rw, nx), newTable);
      entry := NewEntry(newTable, rw, nx);
      memory := Poke(memory, currentTable, Index(vaddr, level), entry);
      tree := Hung(t, newTable, currentTable, Index(vaddr, level), Wanted(rw, nx));
      HungHoused(pmm.Live(), t, FRAME_LIMIT, newTable, currentTable, Index(vaddr, level), Wanted(rw, nx));
    }

    /** The entry of an existing table is opened up. */
    method OpenTable(vaddr: nat, currentTable: nat, level: nat, rw: bool, nx: bool, ghost t0: Tree) returns (entry: nat)
      requires Valid() && Reached(t0, tree, vaddr, currentTable, level, Wanted(rw, nx)) && level > 1
      requires currentTable in tree.slots && |tree.slots[currentTable]| == 512
          && tree.slots[currentTable][Index(vaddr, level)].Table?
      requires Buildable(cpu, level, tree.slots[currentTable][Index(vaddr, level)])
      modifies this`memory, this`tree
      ensures Valid() && Reached(t0, tree, vaddr, Address4K(entry), level - 1, Wanted(rw, nx))
      ensures tree.slots.Keys == old(tree.slots.Keys)
    {
      hide Shape, Encoded, Housed, Pmm.Valid, Reached;
      var index := Index(vaddr, level);
      ghost var s := tree.slots[currentTable][index];
      OpenedEntryIs(cpu, s.child, s.grant, rw, nx, level);
      StepOld(X86(cpu), t0, tree, memory, vaddr, currentTable, level, Wanted(rw, nx));
      PutHoused(pmm.Live(), tree, FRAME_LIMIT, currentTable, index, Table(s.child, Widest(s.grant, Wanted(rw, nx))));
      entry := OpenedEntry(memory[currentTable][index], rw, nx);
      memory := Poke(memory, currentTable, index, entry);
      tree := Put(tree, currentTable, index, Table(s.child, Widest(s.grant, Wanted(rw, nx))));
    }

    /** `ptm_map`: not `ok` when it panics.  Addresses are 64-bit and wrap around. */
    method Map(vaddr0: nat, paddr0: nat, length: nat, write: bool, exec: bool) returns (ok: bool)
      requires Valid() && vaddr0 < ADDRESS_LIMIT && paddr0 < ADDRESS_LIMIT && length <= Span(levelCount + 1)
      modifies this`memory, this`tree, pmm, pmm.slots
      ensures ok ==> Valid()
      ensures ok ==> paddr0 % PAGE == 0 && vaddr0 % PAGE == 0 && length % PAGE == 0
      ensures ok ==> MapsRange(old(tree), tree, vaddr0, paddr0, length, FRAME_LIMIT, Wanted(write, nxSupport && !exec))
      ensures ok ==> Remapped(old(memory), memory, X86(cpu), root, levelCount, vaddr0, paddr0, length, FRAME_LIMIT,
          Wanted(write, nxSupport && !exec))
      ensures ok ==> forall x: nat :: vaddr0 <= x < vaddr0 + length ==>
          && Stamped(Final(memory, root, levelCount, x), x, (paddr0 + (x - vaddr0)) % 0x8_0000_0000_0000, write,
               nxSupport && !exec)
          && Final(memory, root, levelCount, x).value.level
               == Largest(vaddr0, paddr0, length, x - vaddr0, pdpe1gbSupport)
      ensures ok ==> Drawn(old(pmm.Live()), old(tree.slots.Keys), pmm.Live(), tree.slots.Keys)
      ensures !ok ==>
          || paddr0 % PAGE != 0 || vaddr0 % PAGE != 0 || length % PAGE != 0
          || pmm.Exhausted(1) || ObstructedIn(tree, vaddr0, length)
    {
      hide Valid, Pmm.Valid, Shape, Encoded, Housed, MapsRange, MapsPage, Drawn, Remapped, Cursor, Obstructed,
          ObstructedIn, Pmm.Exhausted, Final, Sized, Largest;
      Manager();
      if paddr0 % PAGE != 0 || vaddr0 % PAGE != 0 || length % PAGE != 0 {
        return false;
      }
      var nx := nxSupport && !exec;
      ghost var t0, g, memory0 := tree, Wanted(write, nx), memory;
      var vaddr: nat, paddr: nat, offset: nat := vaddr0, paddr0, 0;
      NothingMapped(t0, vaddr0, paddr0, FRAME_LIMIT, g);
      SizedStarts(t0, vaddr0, paddr0, length, pdpe1gbSupport);
      CursorStarts(vaddr0, Span(t0.depth + 1));
      CursorStarts(paddr0, FRAME_LIMIT);
      ghost var live := pmm.Live();
      DrawnNothing(live, t0.slots.Keys);
      while offset < length
        invariant Valid() && offset <= length && tree.depth == t0.depth
        invariant Cursor(vaddr0, vaddr, offset, Span(t0.depth + 1)) && Cursor(paddr0, paddr, offset, FRAME_LIMIT)
        invariant MapsRange(t0, tree, vaddr0, paddr0, offset, FRAME_LIMIT, g)
        invariant Sized(tree, vaddr0, paddr0, offset, length, pdpe1gbSupport)
        invariant Drawn(live, t0.slots.Keys, pmm.Live(), tree.slots.Keys)
      {
        var pageSize := SIZE_4K;
        if paddr % SIZE_2M == 0 && vaddr % SIZE_2M == 0 && length - offset >= SIZE_2M { pageSize := SIZE_2M; }
        if pdpe1gbSupport && paddr % SIZE_1G == 0 && vaddr % SIZE_1G == 0
            && length - offset >= SIZE_1G { pageSize := SIZE_1G; }
        SmallestUsable(vaddr0, vaddr, paddr0, paddr, offset, length, t0.depth);
        assert PageFits(vaddr, paddr, offset, length, pageSize);
        ghost var t, live1 := tree, pmm.Live();
        ok := MapPage(vaddr, paddr, pageSize, write, nx);
        if !ok {
          if Obstructed(tree, vaddr) {
            CursorDistance(vaddr0, vaddr, offset, Span(t0.depth + 1));
            ObstructedHere(tree, vaddr0, length, vaddr);
          }
          return;
        }
        DrawnTwice(live, t0.slots.Keys, live1, t.slots.Keys, pmm.Live(), tree.slots.Keys);
        PageMapped(t0, t, tree, vaddr0, paddr0, offset, vaddr, paddr, pageSize, g, length);
        PageSized(t0, t, tree, vaddr0, paddr0, offset, vaddr, paddr, pageSize, g, length, pdpe1gbSupport);
        vaddr := (vaddr + pageSize) % ADDRESS_LIMIT;
        paddr := (paddr + pageSize) % ADDRESS_LIMIT;
        offset := offset + pageSize;
      }
      Manager();
      HardwareMaps(memory0, t0, memory, tree, X86(cpu), vaddr0, paddr0, length, FRAME_LIMIT, g);
      RangeStamped(cpu, memory, t0, tree, vaddr0, paddr0, length, g, pdpe1gbSupport);
      return true;
    }

    /** `ptm_create_hhdm_mappings`: the memory map is copied, the copy is swept while mapping
        it changes the memory map itself, and the copy is released. */
    method CreateHhdmMappings(hhdmOffset: nat) returns (ok: bool, ghost entries: seq<Entry>)
      requires Valid() && hhdmOffset < ADDRESS_LIMIT && Below(pmm.Live(), Span(levelCount + 1))
      modifies this`memory, this`tree, pmm, pmm.slots
      ensures ok ==> Valid()
      ensures ok ==> Grown(old(pmm.Live()), old(tree.slots.Keys), pmm.Live(), tree.slots.Keys)
      ensures ok ==> DirectlyMapped(old(tree), tree, old(pmm.Live()), hhdmOffset, Wanted(true, nxSupport))
      ensures ok ==> forall a: nat :: Cover(old(pmm.Live()), a) != [] && Cover(old(pmm.Live()), a) != [Bad] ==>
          Stamped(Final(memory, root, levelCount, hhdmOffset + a), hhdmOffset + a, a, true, nxSupport)
      ensures ok ==> Sources(entries, old(pmm.Live()), old(pmm.Dead()))
      ensures ok ==> BadSkipped(old(tree), tree, old(pmm.Live()), old(pmm.Dead()), entries, hhdmOffset,
          Wanted(true, nxSupport))
      ensures ok && old(pmm.Unspoilt()) ==> BadUntouched(old(tree), tree, old(pmm.Live()), hhdmOffset)
      ensures !ok ==>
        || hhdmOffset % PAGE != 0 || Stuck() || pmm.Exhausted(SnapshotPages(old(pmm.size)))
        || SnapshotRefused(old(pmm.Live())) || Overruns(old(pmm.Live()))
    {
      hide Shape, Encoded, Lingering, Tidy, MapsRange, Drawn, Sweeping, Effect, Fits, LowestFit, CanHold, SnapshotOf,
          DirectlyMapped, Claimed, Grown, Sources, BadSkipped, BadUntouched, NoneSpoilt, Traced, Stamped, Final;
      entries := [];
      ghost var live, dead, t0 := pmm.Live(), pmm.Dead(), tree;
      ghost var limit := if FRAME_LIMIT <= Span(levelCount + 1) then FRAME_LIMIT else Span(levelCount + 1);
      WidthValues(levelCount);
      BelowAlignment(live, FRAME_LIMIT);
      var snapshot := pmm.CreateSnapshot();
      if !snapshot.Taken? {
        return false, [];
      }
      entries := snapshot.entries;
      ghost var live1, c, bytes := pmm.Live(), snapshot.phys, snapshot.bytes;
      SnapshotClaimed(live, t0, FRAME_LIMIT, limit, c, bytes, snapshot.entries, live1);
      ok := Sweep(hhdmOffset, snapshot.entries, live1, limit);
      if !ok { return; }
      ghost var live2 := pmm.Live();
      SweepPromises(t0, tree, hhdmOffset, entries, Wanted(true, nxSupport), live, dead, c, bytes, live1);
      DrawnGrown(live1, t0.slots.Keys, live2, tree.slots.Keys);
      SnapshotReleasable(live, t0.slots.Keys, live1, live2, tree.slots.Keys, c, bytes);
      var o := pmm.FreeSnapshot(snapshot);
      if !o.Settled? {
        return false, entries;
      }
      SnapshotReturned(live, t0.slots.Keys, c, bytes, live1, live2, tree, FRAME_LIMIT, pmm.Live());
      DirectStamped(cpu, memory, t0, tree, live, hhdmOffset, Wanted(true, nxSupport));
    }

    /** The loop over the entries of the copy. */
    method Sweep(hhdmOffset: nat, entries: seq<Entry>, ghost live1: seq<Entry>, ghost limit: nat) returns (ok: bool)
      requires Valid() && hhdmOffset < ADDRESS_LIMIT && pmm.Live() == live1
      requires limit <= FRAME_LIMIT && limit <= Span(levelCount + 1) && limit % PAGE == 0
      requires forall j :: 0 <= j < |entries| ==> entries[j].End() <= limit
      modifies this`memory, this`tree, pmm, pmm.slots
      ensures ok ==> Valid()
      ensures ok ==> Sweeping(old(tree), tree, hhdmOffset, entries, |entries|,
          Wanted(true, nxSupport))
      ensures ok ==> Drawn(live1, old(tree.slots.Keys), pmm.Live(), tree.slots.Keys)
      ensures !ok ==> hhdmOffset % PAGE != 0 || Stuck()
    {
      hide Shape, Encoded, Housed, Pmm.Valid, MapsRange, Drawn, Sweeping, Remapped, ObstructedIn, ObstructedSomewhere,
          Pmm.Exhausted, PagesBase, PagesLength;
      ghost var t0, g := tree, Wanted(true, nxSupport);
      ghost var pages := t0.slots.Keys;
      DrawnNothing(live1, pages);
      SweepStarts(t0, hhdmOffset, entries, g);
      for i := 0 to |entries|
        invariant Valid() && levelCount == t0.depth
        invariant Sweeping(t0, tree, hhdmOffset, entries, i, g)
        invariant Drawn(live1, pages, pmm.Live(), tree.slots.Keys)
      {
        var entry := entries[i];
        ghost var t, liveT := tree, pmm.Live();
        if entry.kind == Bad {
          SweepSkip(t0, t, hhdmOffset, entries, i, g);
          continue;
        }
        var base, length := WholePagesOf(entry);
        PagesRange(entry, limit);
        WrapOffset(hhdmOffset + base, levelCount);
        ok := Map((hhdmOffset + base) % ADDRESS_LIMIT, base, length, true, false);
        if !ok {
          SweepPanics(tree, hhdmOffset, base, length);
          return;
        }
        SweepStep(t0, t, tree, hhdmOffset, entries, i, g, (hhdmOffset + base) % ADDRESS_LIMIT, FRAME_LIMIT,
            limit);
        DrawnTwice(live1, pages, liveT, t.slots.Keys, pmm.Live(), tree.slots.Keys);
      }
      return true;
    }
  }

  /** Every address of a mapped range ends at an entry with the bits that were asked for. */
  lemma RangeStamped(cpu: Cpu, memory: map<nat, seq<nat>>, t0: Tree, t: Tree, v: nat, p: nat, length: nat, g: Grant,
      giants: bool)
    requires Shape(t) && Encoded(memory, t, X86(cpu)) && t.depth <= 5 && length <= Span(t.depth + 1)
    requires MapsRange(t0, t, v, p, length, FRAME_LIMIT, g) && Sized(t, v, p, length, length, giants)
    ensures forall x: nat :: v <= x < v + length ==>
        && Stamped(Final(memory, t.root, t.depth, x), x, (p + (x - v)) % 0x8_0000_0000_0000, g.write, !g.exec)
        && Final(memory, t.root, t.depth, x).value.level == Largest(v, p, length, x - v, giants)
  {
    hide Shape, Encoded, Final, Find, Distance, Largest, Unentered;
    forall x: nat | v <= x < v + length
      ensures Stamped(Final(memory, t.root, t.depth, x), x, (p + (x - v)) % 0x8_0000_0000_0000, g.write, !g.exec)
      ensures Final(memory, t.root, t.depth, x).value.level == Largest(v, p, length, x - v, giants)
    {
      DistanceForward(v, x - v, Span(t.depth + 1));
      RangeDepth(t0, t, v, p, length, FRAME_LIMIT, g);
      assert Translate(t, x) == Mapped(t0, v, p, length, FRAME_LIMIT, g, x);
      FinalIs(cpu, memory, t, x);
    }
  }

  /** Every good address of the direct map ends at an entry with the bits of its grant. */
  lemma DirectStamped(cpu: Cpu, memory: map<nat, seq<nat>>, t0: Tree, t: Tree, live: seq<Entry>, hhdm: nat, g: Grant)
    requires Shape(t) && Encoded(memory, t, X86(cpu)) && t.depth == t0.depth <= 5
    requires DirectlyMapped(t0, t, live, hhdm, g) && Below(live, Span(t0.depth + 1))
    ensures forall a: nat :: Cover(live, a) != [] && Cover(live, a) != [Bad] ==>
        Stamped(Final(memory, t.root, t.depth, hhdm + a), hhdm + a, a, g.write, !g.exec)
  {
    hide Shape, Encoded, Stamped, Final, Find, Distance, NoMemoryNear, Cover;
    forall a: nat | Cover(live, a) != [] && Cover(live, a) != [Bad]
      ensures Stamped(Final(memory, t.root, t.depth, hhdm + a), hhdm + a, a, g.write, !g.exec)
    {
      assert a < Span(t0.depth + 1);
      DistanceForward(hhdm, a, Span(t0.depth + 1));
      assert Translate(t, hhdm + a) == Some(Hit(a, g));
      FinalIs(cpu, memory, t, hhdm + a);
    }
  }

  /** A page of the given size may be mapped next. */
  predicate PageFits(u: nat, q: nat, offset: nat, length: nat, pageSize: nat) {
    && (pageSize == SIZE_4K || pageSize == SIZE_2M || pageSize == SIZE_1G)
    && u % pageSize == 0 && q % pageSize == 0 && offset + pageSize <= length
  }

  /** A 4 KiB page can always be mapped next. */
  lemma SmallestUsable(v: nat, u: nat, p: nat, q: nat, offset: nat, length: nat, depth: nat)
    requires Cursor(v, u, offset, Span(depth + 1)) && Cursor(p, q, offset, FRAME_LIMIT)
    requires offset < length && length % PAGE == 0
    ensures PageFits(u, q, offset, length, SIZE_4K)
  {
  }

  lemma PageMapped(t0: Tree, t: Tree, t': Tree, v: nat, p: nat, o: nat, u: nat, q: nat, pageSize: nat, g: Grant,
      length: nat)
    requires 4 <= t0.depth <= 5 && MapsRange(t0, t, v, p, o, FRAME_LIMIT, g)
    requires Cursor(v, u, o, Span(t0.depth + 1)) && Cursor(p, q, o, FRAME_LIMIT)
    requires PageFits(u, q, o, length, pageSize) && length <= Span(t0.depth + 1)
    requires MapsPage(t, t', u, q % FRAME_LIMIT, LevelOf(pageSize), g)
    ensures t'.depth == t0.depth && MapsRange(t0, t', v, p, o + pageSize, FRAME_LIMIT, g)
    ensures Cursor(v, (u + pageSize) % ADDRESS_LIMIT, o + pageSize, Span(t0.depth + 1))
    ensures Cursor(p, (q + pageSize) % ADDRESS_LIMIT, o + pageSize, FRAME_LIMIT)
  {
    hide MapsRange, MapsPage;
    SpanValues();
    WidthValues(t0.depth);
    RangeDepth(t0, t, v, p, o, FRAME_LIMIT, g);
    RangeStep(t0, t, t', v, p, o, u, q, LevelOf(pageSize), FRAME_LIMIT, FRAME_LIMIT / pageSize, g);
    RangeDepth(t0, t', v, p, o + pageSize, FRAME_LIMIT, g);
    WrapMod(u + pageSize, Span(t0.depth + 1), ADDRESS_LIMIT / Span(t0.depth + 1));
    WrapMod(q + pageSize, FRAME_LIMIT, 0x2000);
    CursorMoves(v, u, o, Span(t0.depth + 1), pageSize);
    CursorMoves(p, q, o, FRAME_LIMIT, pageSize);
  }

  /** The size that was chosen is the largest there can be. */
  lemma PageSized(t0: Tree, t: Tree, t': Tree, v: nat, p: nat, o: nat, u: nat, q: nat, pageSize: nat, g: Grant,
      length: nat, giants: bool)
    requires 4 <= t0.depth <= 5 && t.depth == t0.depth && Sized(t, v, p, o, length, giants)
    requires Cursor(v, u, o, Span(t0.depth + 1)) && Cursor(p, q, o, FRAME_LIMIT)
    requires PageFits(u, q, o, length, pageSize) && length <= Span(t0.depth + 1)
    requires pageSize == SIZE_1G ==> giants
    requires pageSize != SIZE_1G && giants ==> !PageFits(u, q, o, length, SIZE_1G)
    requires pageSize == SIZE_4K ==> !PageFits(u, q, o, length, SIZE_2M)
    requires MapsPage(t, t', u, q % FRAME_LIMIT, LevelOf(pageSize), g)
    ensures Sized(t', v, p, o + pageSize, length, giants)
  {
    hide MapsPage, Sized, Opening;
    SpanValues();
    WidthValues(t0.depth);
    var w := Span(t0.depth + 1);
    SameOpening(v, u, p, q, length, o, w, w / 0x4000_0000, FRAME_LIMIT, FRAME_LIMIT / 0x4000_0000);
    SizedStep(t, t', v, p, o, length, giants, u, q % FRAME_LIMIT, LevelOf(pageSize), g);
  }

  /** The level whose entries map pages of the given size. */
  function LevelOf(pageSize: nat): nat {
    if pageSize == SIZE_4K then 1 else if pageSize == SIZE_2M then 2 else 3
  }
}
