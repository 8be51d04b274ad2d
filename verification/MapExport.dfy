/** Handing the memory map over to the kernel: a block large enough for the map, which by
    then contains the block, is found by doubling, and every live entry is written into it. */
module MapExport {
  import opened MemoryMap
  import opened MapUpdate
  import opened Allocation
  import opened Pmm
  import opened SlotTrace

  datatype HandedKind = Usable | InUse | Reclaimable | AcpiTables | AcpiStorage | Firmware | Broken

  /** What an entry of each kind is handed over as. */
  function Handed(k: Kind): HandedKind {
    match k
    case BootloaderReclaimable => Usable
    case EfiReclaimable => Usable
    case Free => Usable
    case Allocated => Reclaimable
    case Used => InUse
    case AcpiReclaimable => AcpiTables
    case AcpiNvs => AcpiStorage
    case Reserved => Firmware
    case Bad => Broken
  }

  datatype HandedEntry = HandedEntry(kind: HandedKind, base: nat, length: nat) {
    predicate Has(a: nat) { base <= a < base + length }
  }

  /** Size in bytes of one entry of the table. */
  const HANDED_SIZE: nat := 24

  /** Pages for a table of so many entries. */
  function TablePages(entries: nat): nat { Ceil(entries * HANDED_SIZE, PAGE) / PAGE }

  /** What the table tells the kernel about address `a`. */
  ghost function Told(table: seq<HandedEntry>, a: nat): seq<HandedKind> {
    if table == [] then [] else (if table[0].Has(a) then [table[0].kind] else []) + Told(table[1..], a)
  }

  function HandedOver(e: Entry): HandedEntry { HandedEntry(Handed(e.kind), e.base, e.length) }

  function AllHanded(ks: seq<Kind>): seq<HandedKind> { seq(|ks|, i requires 0 <= i < |ks| => Handed(ks[i])) }

  /** What the kernel is told about an address says which kinds of memory are there. */
  ghost predicate Tells(told: seq<HandedKind>, cover: seq<Kind>) {
    && |told| == |cover|
    && (told == [Usable] <==> cover == [Free] || cover == [BootloaderReclaimable] || cover == [EfiReclaimable])
    && (told == [Reclaimable] <==> cover == [Allocated])
    && (told == [InUse] <==> cover == [Used])
    && (told == [AcpiTables] <==> cover == [AcpiReclaimable])
    && (told == [AcpiStorage] <==> cover == [AcpiNvs])
    && (told == [Firmware] <==> cover == [Reserved])
    && (told == [Broken] <==> cover == [Bad])
  }

  lemma HandedTells(ks: seq<Kind>)
    ensures Tells(AllHanded(ks), ks)
  {
    var told := AllHanded(ks);
    if |ks| == 1 {
      assert told == [Handed(ks[0])] && ks == [ks[0]];
    }
  }

  lemma {:induction false} ToldIsCover(s: seq<Entry>, table: seq<HandedEntry>, a: nat)
    requires |table| == |s| && forall i :: 0 <= i < |s| ==> table[i] == HandedOver(s[i])
    ensures Told(table, a) == AllHanded(Cover(s, a))
  {
    if s != [] {
      ToldIsCover(s[1..], table[1..], a);
    }
  }

  /** The table agrees with the map `s`, which is the map `s0` with the table's own block
      claimed: the kernel is told about the block and about nothing else that changed. */
  ghost predicate Exported(s0: seq<Entry>, block: Block, s: seq<Entry>, table: seq<HandedEntry>) {
    && Ledger(s0, [block], s) && |table| == |s| && 24 * |table| <= block.Length()
    && (forall a :: Tells(Told(table, a), Cover(s, a)))
    && forall a :: if block.Has(a) then Told(table, a) == [Reclaimable] else Tells(Told(table, a), Cover(s0, a))
  }

  lemma ExportedTable(s0: seq<Entry>, block: Block, s: seq<Entry>, table: seq<HandedEntry>)
    requires Ledger(s0, [block], s) && block.kind == Allocated && |s| * HANDED_SIZE <= block.Length()
    requires |table| == |s| && forall i :: 0 <= i < |s| ==> table[i] == HandedOver(s[i])
    ensures Exported(s0, block, s, table)
  {
    forall a
      ensures Tells(Told(table, a), Cover(s, a))
      ensures if block.Has(a) then Told(table, a) == [Reclaimable] else Tells(Told(table, a), Cover(s0, a))
    {
      ToldIsCover(s, table, a);
      HandedTells(Cover(s, a));
      if block.Has(a) {
        assert [block][0].Has(a);
      } else {
        assert Outside([block], a);
      }
    }
  }

  /** The kernel may use exactly the memory that was free or could be reclaimed from the loader,
      and no address of it belongs to the table it reads that from. */
  lemma TableIsNotUsable(s0: seq<Entry>, block: Block, s: seq<Entry>, table: seq<HandedEntry>, a: nat)
    requires Exported(s0, block, s, table)
    ensures Told(table, a) == [Usable] <==>
        !block.Has(a) && Cover(s0, a) in [[Free], [BootloaderReclaimable], [EfiReclaimable]]
  {
    assert Tells(Told(table, a), Cover(s, a));
    assert [Reclaimable][0] != [Usable][0];
  }

  /** Releasing a block that was too small restores the map's view. */
  lemma RetryStarts(s0: seq<Entry>, b: Block, s: seq<Entry>)
    requires Ledger(s0, Without([b], 0), s)
    ensures Ledger(s0, [], s)
  {
    assert Without([b], 0) == [];
  }

  lemma BlockBytes(entries: nat)
    requires entries <= 2 * MAX_ENTRIES
    ensures var bytes := Ceil(entries * HANDED_SIZE, PAGE);
            bytes / PAGE * PAGE == bytes && entries * HANDED_SIZE <= bytes < ADDRESS_LIMIT
                && (entries > 0 ==> bytes / PAGE > 0)
  {
    CeilLeast(entries * HANDED_SIZE, PAGE);
  }

  lemma SomeRoom(s: seq<Entry>, length: nat, alignment: nat, x: nat)
    requires alignment > 0 && LowestFit(s, length, alignment, x)
    ensures s != [] && CanHold(s, x, length)
  {
  }

  /** One attempt: a block for so many entries is claimed, and released again when the map has
      outgrown it; not `ok` when the memory manager fails. */
  method ClaimOnce(pmm: Pmm, entries: nat, ghost s0: seq<Entry>) returns (ok: bool, enough: bool, block: Block)
    requires pmm.Valid() && Ledger(s0, [], pmm.Live()) && Admissible(Claim(0, PAGE, Allocated), s0)
    requires entries <= 2 * MAX_ENTRIES && (entries == 0 ==> pmm.Live() == [])
    modifies pmm, pmm.slots
    ensures ok ==> pmm.Valid() && entries > 0
    ensures ok && enough ==> Ledger(s0, [block], pmm.Live())
    ensures ok && enough ==> block.kind == Allocated && pmm.size * HANDED_SIZE <= block.Length()
    ensures ok && !enough ==> Ledger(s0, [], pmm.Live()) && entries < MAX_ENTRIES
    ensures !ok ==> pmm.Exhausted(TablePages(entries))
  {
    hide Effect, Ledger, Pmm.Valid, Fits, CanHold, LowestFit, Admissible, Ceil, Traced, NoneSpoilt, ReachesPast, Need;
    ghost var s := pmm.Live();
    var bytes := Ceil(entries * HANDED_SIZE, PAGE);
    BlockBytes(entries);
    ClaimAdmissible(s0, [], s, 0, PAGE, Allocated);
    var r := pmm.Alloc(bytes / PAGE);
    if !r.Address? {
      return false, false, Block(0, 0, Free);
    }
    SomeRoom(s, bytes, PAGE, r.address);
    block := Block(r.address, bytes / PAGE, Allocated);
    LedgerClaimed(s0, [], s, block, pmm.Live());
    assert [] + [block] == [block];
    if pmm.size <= entries {
      return true, true, block;
    }
    ghost var s1 := pmm.Live();
    ReleaseAdmissible(s0, [block], s1, 0);
    var o := pmm.FreePages(r.address, bytes / PAGE);
    if !o.Settled? { return false, false, block; }
    LedgerReleased(s0, [block], s1, 0, pmm.Live());
    RetryStarts(s0, block, pmm.Live());
    return true, false, block;
  }

  /** The search for the block; not `ok` when the memory manager fails. */
  method ClaimTable(pmm: Pmm) returns (ok: bool, block: Block)
    requires pmm.Valid() && Admissible(Claim(0, PAGE, Allocated), pmm.Live())
    modifies pmm, pmm.slots
    ensures ok ==> pmm.Valid() && Ledger(old(pmm.Live()), [block], pmm.Live())
    ensures ok ==> block.kind == Allocated && pmm.size * HANDED_SIZE <= block.Length()
    ensures !ok ==> exists n: nat :: n <= 2 * MAX_ENTRIES && pmm.Exhausted(TablePages(n))
  {
    ghost var s0 := pmm.Live();
    LedgerStarts(s0);
    hide Ledger, Pmm.Valid, Admissible;
    var entries := pmm.size;
    while true
      invariant pmm.Valid() && Ledger(s0, [], pmm.Live())
      invariant entries <= 2 * MAX_ENTRIES && (entries == 0 ==> pmm.Live() == [])
      decreases MAX_ENTRIES - entries
    {
      var enough;
      ok, enough, block := ClaimOnce(pmm, entries, s0);
      if !ok || enough { return; }
      entries := entries * 2;
    }
  }

  /** The memory map as the kernel gets it, written into the claimed block. */
  method ExportMemoryMap(pmm: Pmm) returns (ok: bool, block: Block, count: nat, table: array<HandedEntry>)
    requires pmm.Valid() && Admissible(Claim(0, PAGE, Allocated), pmm.Live())
    modifies pmm, pmm.slots
    ensures ok ==> pmm.Valid() && count <= table.Length == block.Length() / HANDED_SIZE
    ensures ok ==> Exported(old(pmm.Live()), block, pmm.Live(), table[..count])
    ensures !ok ==> exists n: nat :: n <= 2 * MAX_ENTRIES && pmm.Exhausted(TablePages(n))
  {
    hide Ledger, Lingering, Tidy, Exported;
    ghost var s0 := pmm.Live();
    ok, block := ClaimTable(pmm);
    table := new HandedEntry[block.Length() / HANDED_SIZE];
    if !ok { return false, block, 0, table; }
    for i := 0 to pmm.size
      modifies table
      invariant forall j :: 0 <= j < i ==> table[j] == HandedOver(pmm.Live()[j])
    {
      var entry := pmm.slots[i];
      table[i] := HandedEntry(Handed(entry.kind), entry.base, entry.length);
    }
    count := pmm.size;
    ExportedTable(s0, block, pmm.Live(), table[..count]);
  }
}
