/** Loading the kernel's ELF segments: memory is claimed for each, mapped page by page at its
    virtual address, zeroed, and filled from the file.  What the kernel then reads through its
    page tables is what the file promises. */
module KernelLoader {
  import opened Options
  import opened Arith
  import opened MemoryMap
  import opened MapUpdate
  import opened Allocation
  import opened Pmm
  import opened SlotTrace
  import opened Frames
  import opened PageTree
  import opened Paging
  import opened TableMemory
  import opened X86Words
  import opened X86Ptm

  const PTYPE_LOAD: nat := 1

  const PFLAGS_EXECUTE: nat := 1
  const PFLAGS_WRITE: nat := 2
  const PFLAGS_READ: nat := 4

  const SEGMENT_FLAG_READ: nat := 1
  const SEGMENT_FLAG_WRITE: nat := 2
  const SEGMENT_FLAG_EXECUTE: nat := 4

  /** A program header. */
  datatype Header = Header(kind: nat, flags: nat, offset: nat, vaddr: nat, filesz: nat, memsz: nat) {
    /** The start of the segment's first page. */
    function Start(): nat { vaddr - vaddr % PAGE }

    /** The end of its last page. */
    function Stop(): nat { Ceil(vaddr + memsz, PAGE) }

    /** The first byte of the segment, counted from the start of its first page. */
    function Skip(): nat { vaddr % PAGE }

    /** Pages the segment reaches into. */
    function PageCount(): nat { (Skip() + memsz + PAGE - 1) / PAGE }

    // Bits of `p_flags`, as the ELF format numbers them.

    predicate Executes() { flags % 2 == 1 }

    predicate Writes() { flags / 2 % 2 == 1 }

    predicate Reads() { flags / 4 % 2 == 1 }
  }

  datatype Segment = Segment(vaddr: nat, paddr: nat, size: nat, flags: nat) {
    predicate Has(a: nat) { vaddr <= a < vaddr + size }
  }

  /** Size in bytes of one segment record. */
  const SEGMENT_SIZE: nat := 25

  /** A loaded segment and the physical block that holds it. */
  datatype Load = Load(header: Header, block: nat) {
    function Length(): nat
      requires Pages(header)
    {
      header.Stop() - header.Start()
    }
  }

  ghost predicate Pages(h: Header) { h.Start() <= h.Stop() && (h.Stop() - h.Start()) % PAGE == 0 }

  /** What the loader assumes of a segment: it is inside the file, its file part is no longer
      than its memory part, and its pages are inside the address space. */
  ghost predicate Loadable(h: Header, file: seq<nat>, width: nat) {
    && h.filesz <= h.memsz && h.offset + h.filesz <= |file|
    && h.vaddr + h.memsz + PAGE <= ADDRESS_LIMIT
    && h.memsz + 2 * PAGE <= width
  }

  lemma PagesOfHeader(h: Header)
    ensures Pages(h) && h.Start() % PAGE == 0 && h.Start() + h.Skip() == h.vaddr
    ensures h.Skip() + h.memsz <= h.Stop() - h.Start() < h.memsz + 2 * PAGE && h.Stop() < h.vaddr + h.memsz + PAGE
    ensures (h.Stop() - h.Start()) / PAGE * PAGE == h.Stop() - h.Start() && h.Stop() % PAGE == 0
    ensures (h.Stop() - h.Start()) / PAGE == h.PageCount()
  {
    CeilLeast(h.vaddr + h.memsz, PAGE);
  }

  ghost predicate AllPages(loads: seq<Load>) { forall i :: 0 <= i < |loads| ==> Pages(loads[i].header) }

  // ---------------------------------------------------------------- what is mapped

  function GrantFor(h: Header, nxSupport: bool): Grant { Wanted(h.Writes(), nxSupport && !h.Executes()) }

  /** What `x` translates to when the last segment with a page there decides. */
  ghost function PlacedAt(t0: Tree, loads: seq<Load>, nxSupport: bool, x: nat): Option<Hit>
    requires AllPages(loads)
  {
    if loads == [] then Translate(t0, x)
    else
      var n := |loads| - 1;
      var d := Distance(x, loads[n].header.Start(), Span(t0.depth + 1));
      if d < loads[n].Length() then Some(Hit(loads[n].block + d, GrantFor(loads[n].header, nxSupport)))
      else PlacedAt(t0, loads[..n], nxSupport, x)
  }

  ghost predicate Mappings(t0: Tree, t: Tree, loads: seq<Load>, nxSupport: bool) {
    && AllPages(loads) && t.depth == t0.depth
    && forall x: nat :: Translate(t, x) == PlacedAt(t0, loads, nxSupport, x)
  }

  lemma MappingsNext(t0: Tree, t: Tree, t': Tree, loads: seq<Load>, l: Load, nxSupport: bool)
    requires Mappings(t0, t, loads, nxSupport) && Pages(l.header) && l.block + l.Length() <= FRAME_LIMIT
    requires MapsRange(t, t', l.header.Start(), l.block, l.Length(), FRAME_LIMIT, GrantFor(l.header, nxSupport))
    ensures Mappings(t0, t', loads + [l], nxSupport)
  {
    hide Translate, Distance, Span, Ceil, Pages;
    var all, g := loads + [l], GrantFor(l.header, nxSupport);
    assert all[..|loads|] == loads;
    forall x: nat ensures Translate(t', x) == PlacedAt(t0, all, nxSupport, x) {
      var d := Distance(x, l.header.Start(), Span(t0.depth + 1));
      assert Translate(t', x) == Mapped(t, l.header.Start(), l.block, l.Length(), FRAME_LIMIT, g, x);
      if d < l.Length() {
        ModUnique(l.block + d, FRAME_LIMIT, 0, l.block + d);
      }
    }
  }

  // ---------------------------------------------------------------- where segments live

  ghost predicate Apart(x: nat, length: nat, y: nat, other: nat) { x + length <= y || y + other <= x }

  /** Every segment lies in an allocated block that no page table is in. */
  ghost predicate Backing(live: seq<Entry>, pages: set<nat>, loads: seq<Load>) {
    && AllPages(loads)
    && forall i :: 0 <= i < |loads| && loads[i].Length() > 0 ==>
         && Holds(live, loads[i].block, loads[i].block + loads[i].Length(), Allocated)
         && forall p :: p in pages ==> Apart(p, PAGE, loads[i].block, loads[i].Length())
  }

  /** No two segments share memory. */
  ghost predicate BlocksApart(loads: seq<Load>)
    requires AllPages(loads)
  {
    forall i, j :: 0 <= i < j < |loads| && loads[i].Length() > 0 ==>
        Apart(loads[i].block, loads[i].Length(), loads[j].block, loads[j].Length())
  }

  /** A newly claimed block is apart from all segments loaded before. */
  lemma ClaimApartFrom(live: seq<Entry>, c: nat, length: nat, x: nat, other: nat)
    requires WellFormed(live) && other > 0 && Holds(live, x, x + other, Allocated)
    requires forall a: nat :: c <= a < c + length ==> Cover(live, a) == [Free]
    requires Cover(live, c) == [Free]
    ensures Apart(x, other, c, length)
  {
    if !Apart(x, other, c, length) {
      var a := if x < c then c else x;
      HeldAt(live, x, x + other, Allocated, a);
    }
  }

  lemma BackingClaimed(live: seq<Entry>, pages: set<nat>, loads: seq<Load>, l: Load, live': seq<Entry>)
    requires WellFormed(live) && Backing(live, pages, loads) && BlocksApart(loads) && Pages(l.header)
    requires Claimed(live, l.block, l.Length(), Allocated, live')
    requires forall p :: p in pages ==> p + PAGE <= l.block || l.block + l.Length() <= p
    ensures Backing(live', pages, loads + [l]) && BlocksApart(loads + [l])
  {
    hide Tidy, Holds, Ceil, Load.Length, Pages, Claimed;
    var all := loads + [l];
    forall i | 0 <= i < |loads| && loads[i].Length() > 0
      ensures Apart(loads[i].block, loads[i].Length(), l.block, l.Length())
      ensures Holds(live', loads[i].block, loads[i].block + loads[i].Length(), Allocated)
    {
      ClaimBeside(live, l.block, l.Length(), loads[i].block, loads[i].Length(), live');
    }
    if l.Length() > 0 {
      ClaimedHeld(live, l.block, l.Length(), Allocated, live');
    }
  }

  lemma ClaimBeside(live: seq<Entry>, c: nat, length: nat, x: nat, other: nat, live': seq<Entry>)
    requires WellFormed(live) && Claimed(live, c, length, Allocated, live') && other > 0
        && Holds(live, x, x + other, Allocated)
    ensures Apart(x, other, c, length) && Holds(live', x, x + other, Allocated)
  {
    hide Holds, Tidy;
    ClaimApartFrom(live, c, length, x, other);
  }

  /** Tables built meanwhile come out of free memory. */
  lemma BackingGrown(live: seq<Entry>, pages: set<nat>, loads: seq<Load>, live': seq<Entry>, pages': set<nat>)
    requires WellFormed(live) && Backing(live, pages, loads) && Grown(live, pages, live', pages')
    ensures Backing(live', pages', loads)
  {
    hide Tidy, Holds;
    forall i, p | 0 <= i < |loads| && loads[i].Length() > 0 && p in pages'
      ensures Apart(p, PAGE, loads[i].block, loads[i].Length())
    {
      if p !in pages && !Apart(p, PAGE, loads[i].block, loads[i].Length()) {
        var a := if p < loads[i].block then loads[i].block else p;
        HeldAt(live, loads[i].block, loads[i].block + loads[i].Length(), Allocated, a);
        assert false;
      }
    }
  }

  // ---------------------------------------------------------------- what memory holds

  /** `memset` to zero. */
  function Cleared(bytes: nat -> nat, at: nat, length: nat): nat -> nat {
    (a: nat) => if at <= a < at + length then 0 else bytes(a)
  }

  /** `memcpy` */
  function Copied(bytes: nat -> nat, at: nat, data: seq<nat>): nat -> nat {
    (a: nat) => if at <= a < at + |data| then data[a - at] else bytes(a)
  }

  /** The byte the file promises at offset `k` of the segment's memory. */
  function Promised(h: Header, file: seq<nat>, k: nat): nat {
    if k < h.filesz && h.offset + k < |file| then file[h.offset + k] else 0
  }

  /** The segment's block holds its file part, and zeros before and after it. */
  ghost predicate Filled(bytes: nat -> nat, file: seq<nat>, l: Load)
    requires Pages(l.header)
  {
    forall a: nat :: l.block <= a < l.block + l.Length() ==>
      bytes(a) == if a < l.block + l.header.Skip() then 0 else Promised(l.header, file, a - (l.block + l.header.Skip()))
  }

  ghost predicate AllFilled(bytes: nat -> nat, file: seq<nat>, loads: seq<Load>)
    requires AllPages(loads)
  {
    forall i :: 0 <= i < |loads| ==> Filled(bytes, file, loads[i])
  }

  function Image(h: Header, file: seq<nat>): seq<nat>
    requires h.offset + h.filesz <= |file|
  {
    file[h.offset..h.offset + h.filesz]
  }

  lemma FilledNext(bytes: nat -> nat, file: seq<nat>, loads: seq<Load>, l: Load)
    requires AllPages(loads + [l]) && BlocksApart(loads + [l]) && AllPages(loads) && AllFilled(bytes, file, loads)
    requires l.header.offset + l.header.filesz <= |file| && l.header.Skip() + l.header.filesz <= l.Length()
    ensures AllFilled(Copied(Cleared(bytes, l.block, l.Length()), l.block + l.header.Skip(), Image(l.header, file)),
        file, loads + [l])
  {
    var all := loads + [l];
    var bytes' := Copied(Cleared(bytes, l.block, l.Length()), l.block + l.header.Skip(), Image(l.header, file));
    forall i | 0 <= i < |all| ensures Filled(bytes', file, all[i]) {
      if i < |loads| {
        assert all[i] == loads[i] && all[|loads|] == l;
        assert Filled(bytes, file, loads[i]);
        assert loads[i].Length() > 0 ==> Apart(loads[i].block, loads[i].Length(), l.block, l.Length());
      }
    }
  }

  // ---------------------------------------------------------------- what is recorded

  function Recorded(l: Load): Segment {
    var h := l.header;
    Segment(h.vaddr, l.block + h.Skip(), h.memsz, RecordFlags(h.flags))
  }

  /** The flags of a record: `flags |= ...` for each bit of the header's that is set. */
  function RecordFlags(p: nat): nat {
    var flags := if Bit(p, PFLAGS_READ) then SEGMENT_FLAG_READ else 0;
    var flags := if Bit(p, PFLAGS_WRITE) then SetBit(flags, SEGMENT_FLAG_WRITE) else flags;
    if Bit(p, PFLAGS_EXECUTE) then SetBit(flags, SEGMENT_FLAG_EXECUTE) else flags
  }

  /** A record names its segment's addresses, and its bits 0, 1 and 2 say that the segment is
      read, written and executed. */
  predicate Describes(s: Segment, h: Header) {
    && s.vaddr == h.vaddr && s.size == h.memsz && s.paddr % 4096 == h.vaddr % 4096
    && s.flags < 8
    && (s.flags % 2 == 1 <==> h.Reads()) && (s.flags / 2 % 2 == 1 <==> h.Writes())
    && (s.flags / 4 % 2 == 1 <==> h.Executes())
  }

  lemma RecordedDescribes(l: Load)
    requires l.block % PAGE == 0
    ensures Describes(Recorded(l), l.header)
  {
  }

  /** The lowest virtual address of the segments, and the highest address when there is none. */
  ghost predicate LowestAddress(base: nat, loads: seq<Load>) {
    && (forall i :: 0 <= i < |loads| ==> base <= loads[i].header.vaddr)
    && (base == ADDRESS_LIMIT - 1 || exists i :: 0 <= i < |loads| && base == loads[i].header.vaddr)
  }

  lemma LowestNext(base: nat, loads: seq<Load>, l: Load)
    requires LowestAddress(base, loads)
    ensures LowestAddress(if base > l.header.vaddr then l.header.vaddr else base, loads + [l])
  {
    var all := loads + [l];
    assert all[|loads|] == l;
    if i :| 0 <= i < |loads| && base == loads[i].header.vaddr {
      assert all[i] == loads[i];
    }
  }

  // ---------------------------------------------------------------- what the kernel sees

  /** Everything loading has achieved: where the segments are mapped, that nothing else uses
      their memory, and what that memory holds. */
  ghost predicate Loaded(t0: Tree, t: Tree, live: seq<Entry>, bytes: nat -> nat, file: seq<nat>, loads: seq<Load>,
      nxSupport: bool) {
    Mappings(t0, t, loads, nxSupport) && Backing(live, t.slots.Keys, loads) && BlocksApart(loads)
        && AllFilled(bytes, file, loads)
  }

  /** No segment after `i` has a page at `x`. */
  ghost predicate LastAt(loads: seq<Load>, i: nat, x: nat, width: nat)
    requires width > 0 && AllPages(loads)
  {
    forall j :: i < j < |loads| ==> Distance(x, loads[j].header.Start(), width) >= loads[j].Length()
  }

  lemma {:induction false} PlacedByLast(t0: Tree, loads: seq<Load>, nxSupport: bool, x: nat, i: nat)
    requires AllPages(loads) && i < |loads| && LastAt(loads, i, x, Span(t0.depth + 1))
    requires Distance(x, loads[i].header.Start(), Span(t0.depth + 1)) < loads[i].Length()
    ensures PlacedAt(t0, loads, nxSupport, x) ==
            Some(Hit(loads[i].block + Distance(x, loads[i].header.Start(), Span(t0.depth + 1)),
                GrantFor(loads[i].header, nxSupport)))
  {
    if i < |loads| - 1 {
      PlacedByLast(t0, loads[..|loads| - 1], nxSupport, x, i);
    }
  }

  lemma {:induction false} PlacedByNone(t0: Tree, loads: seq<Load>, nxSupport: bool, x: nat)
    requires AllPages(loads)
    requires forall j :: 0 <= j < |loads| ==>
        Distance(x, loads[j].header.Start(), Span(t0.depth + 1)) >= loads[j].Length()
    ensures PlacedAt(t0, loads, nxSupport, x) == Translate(t0, x)
  {
    if loads != [] {
      PlacedByNone(t0, loads[..|loads| - 1], nxSupport, x);
    }
  }

  /** The address is found, for reading; for writing if the header says so; and for execution
      if the header says so or the processor cannot forbid it. */
  predicate Granted(hit: Option<Hit>, address: nat, h: Header, nxSupport: bool) {
    && hit.Some? && hit.value.address == address && hit.value.grant.read
    && (hit.value.grant.write <==> h.flags / 2 % 2 == 1)
    && (hit.value.grant.exec <==> h.flags % 2 == 1 || !nxSupport)
  }

  /** Byte `k` of a segment's memory, read through the page tables: the address is the one its
      record names, the access rights are those of its header, and the byte is that of the file,
      or zero behind the file part.  Only a later segment in the same page can spoil this. */
  lemma KernelReads(t0: Tree, t: Tree, live: seq<Entry>, bytes: nat -> nat, file: seq<nat>, loads: seq<Load>,
      nxSupport: bool, i: nat, k: nat)
    requires Loaded(t0, t, live, bytes, file, loads, nxSupport) && i < |loads| && k < loads[i].header.memsz
    requires Loadable(loads[i].header, file, Span(t0.depth + 1))
    requires LastAt(loads, i, loads[i].header.vaddr + k, Span(t0.depth + 1))
    ensures var h, s := loads[i].header, Recorded(loads[i]);
            && Granted(Translate(t, h.vaddr + k), s.paddr + k, h, nxSupport)
            && bytes(s.paddr + k) == if k < h.filesz then file[h.offset + k] else 0
  {
    hide Translate, Distance, Span, Pages, Ceil, Backing, BlocksApart, PlacedAt;
    var l := loads[i];
    var h, w := l.header, Span(t0.depth + 1);
    PagesOfHeader(h);
    assert h.vaddr + k == h.Start() + (h.Skip() + k);
    DistanceForward(h.Start(), h.Skip() + k, w);
    PlacedByLast(t0, loads, nxSupport, h.vaddr + k, i);
    assert Filled(bytes, file, l);
  }

  /** No two segments have a page in common. */
  ghost predicate PagesApart(loads: seq<Load>, width: nat)
    requires width > 0 && AllPages(loads)
  {
    forall i, j, x: nat :: 0 <= i < j < |loads| && Distance(x, loads[i].header.Start(), width) < loads[i].Length() ==>
      Distance(x, loads[j].header.Start(), width) >= loads[j].Length()
  }

  ghost predicate AllLoaded(loads: seq<Load>, file: seq<nat>, width: nat) {
    forall i :: 0 <= i < |loads| ==> Loadable(loads[i].header, file, width)
  }

  lemma ApartIsLast(loads: seq<Load>, i: nat, x: nat, width: nat)
    requires width > 0 && AllPages(loads) && PagesApart(loads, width) && i < |loads|
    requires Distance(x, loads[i].header.Start(), width) < loads[i].Length()
    ensures LastAt(loads, i, x, width)
  {
    hide Distance, Pages;
  }

  /** With no page shared, the kernel finds every byte of every segment. */
  lemma KernelReadsAll(t0: Tree, t: Tree, live: seq<Entry>, bytes: nat -> nat, file: seq<nat>, loads: seq<Load>,
      nxSupport: bool)
    requires Loaded(t0, t, live, bytes, file, loads, nxSupport) && PagesApart(loads, Span(t0.depth + 1))
    requires AllLoaded(loads, file, Span(t0.depth + 1))
    ensures forall i, k: nat :: 0 <= i < |loads| && k < loads[i].header.memsz ==>
              ReadsAs(t, bytes, loads[i], k, Promised(loads[i].header, file, k), nxSupport)
  {
    hide Translate, PlacedAt, Backing, BlocksApart, AllFilled, Ceil, Distance, LastAt, PagesApart, Span;
    forall i, k: nat | 0 <= i < |loads| && k < loads[i].header.memsz
      ensures ReadsAs(t, bytes, loads[i], k, Promised(loads[i].header, file, k), nxSupport)
    {
      var h, w := loads[i].header, Span(t0.depth + 1);
      PagesOfHeader(h);
      assert h.vaddr + k == h.Start() + (h.Skip() + k);
      DistanceForward(h.Start(), h.Skip() + k, w);
      ApartIsLast(loads, i, h.vaddr + k, w);
      KernelReads(t0, t, live, bytes, file, loads, nxSupport, i, k);
    }
  }

  ghost predicate ReadsAs(t: Tree, bytes: nat -> nat, l: Load, k: nat, byte: nat, nxSupport: bool) {
    && Granted(Translate(t, l.header.vaddr + k), Recorded(l).paddr + k, l.header, nxSupport)
    && bytes(Recorded(l).paddr + k) == byte
  }

  /** The last segment with a page at `x`, when it is behind `i`. */
  lemma {:induction false} LastBehind(loads: seq<Load>, i: nat, x: nat, width: nat) returns (j: nat)
    requires width > 0 && AllPages(loads) && !LastAt(loads, i, x, width)
    ensures i < j < |loads| && LastAt(loads, j, x, width)
    ensures Distance(x, loads[j].header.Start(), width) < loads[j].Length()
  {
    hide Pages, Distance;
    j := |loads| - 1;
    while Distance(x, loads[j].header.Start(), width) >= loads[j].Length()
      invariant i < j < |loads| && LastAt(loads, j, x, width)
      decreases j
    {
      j := j - 1;
    }
  }

  /** A record tells where its addresses are in physical memory, if and only if no later segment
      has a page there. */
  lemma RecordTranslated(t0: Tree, t: Tree, live: seq<Entry>, bytes: nat -> nat, file: seq<nat>, loads: seq<Load>,
      nxSupport: bool, i: nat, a: nat)
    requires Loaded(t0, t, live, bytes, file, loads, nxSupport) && AllLoaded(loads, file, Span(t0.depth + 1))
    requires i < |loads| && Recorded(loads[i]).Has(a)
    ensures var s := Recorded(loads[i]);
            FoundAt(t, a, s.paddr + (a - s.vaddr)) <==> LastAt(loads, i, a, Span(t0.depth + 1))
  {
    hide Translate, Span, Distance, PlacedAt, Pages, Ceil, Backing, AllFilled, Filled, Loadable;
    var k: nat := a - Recorded(loads[i]).vaddr;
    PagesOfHeader(loads[i].header);
    if LastAt(loads, i, a, Span(t0.depth + 1)) {
      KernelReads(t0, t, live, bytes, file, loads, nxSupport, i, k);
    } else {
      var j := LastBehind(loads, i, a, Span(t0.depth + 1));
      PlacedByLast(t0, loads, nxSupport, a, j);
      assert Apart(loads[i].block, loads[i].Length(), loads[j].block, loads[j].Length());
    }
  }

  ghost predicate FoundAt(t: Tree, a: nat, paddr: nat) {
    Translate(t, a).Some? && Translate(t, a).value.address == paddr
  }

  // ---------------------------------------------------------------- the loader

  lemma PagesBehind(j: nat, start: nat)
    requires start <= j && j % PAGE == 0 && start % PAGE == 0
    ensures (j - start) % PAGE == 0
  {
  }

  lemma NextPage(j: nat, end: nat)
    requires j % PAGE == 0 && end % PAGE == 0 && j < end
    ensures j + PAGE <= end && (j + PAGE) % PAGE == 0
  {
  }

  /** So many bytes from `block` on lie in one allocated entry. */
  ghost predicate HasRoom(live: seq<Entry>, block: nat, bytes: nat) { Holds(live, block, block + bytes, Allocated) }

  lemma HeldRoom(live: seq<Entry>, block: nat, length: nat, bytes: nat)
    requires bytes <= length && Holds(live, block, block + length, Allocated)
    ensures HasRoom(live, block, bytes)
  {
  }

  lemma RoomKept(live: seq<Entry>, block: nat, bytes: nat, live': seq<Entry>)
    requires Kept(live, live') && HasRoom(live, block, bytes) && bytes > 0
    ensures HasRoom(live', block, bytes)
  {
    hide Holds;
  }

  /** The flags of a record, bit by bit. */
  method FlagsFor(h: Header) returns (flags: nat)
    ensures flags == RecordFlags(h.flags)
  {
    flags := 0;
    if Bit(h.flags, PFLAGS_READ) { flags := SetBit(flags, SEGMENT_FLAG_READ); }
    if Bit(h.flags, PFLAGS_WRITE) { flags := SetBit(flags, SEGMENT_FLAG_WRITE); }
    if Bit(h.flags, PFLAGS_EXECUTE) { flags := SetBit(flags, SEGMENT_FLAG_EXECUTE); }
  }

  class Loader {
    const ptm: Ptm
    const file: seq<nat>
    var bytes: nat -> nat
    var segments: array<Segment>
    var segmentCount: nat
    var kernelBase: nat
    var recordsAt: nat
    ghost var loads: seq<Load>
    ghost var before: Tree

    constructor (ptm: Ptm, file: seq<nat>, bytes: nat -> nat)
      ensures this.ptm == ptm && this.file == file && fresh(segments)
    {
      this.ptm := ptm;
      this.file := file;
      this.bytes := bytes;
      segments := new Segment[0];
    }

    /** Physical memory, the page tables and the records agree on the segments loaded so far. */
    ghost predicate Valid()
      reads this, segments, ptm, ptm.pmm, ptm.pmm.slots
    {
      && ptm.Valid() && ptm.levelCount == before.depth && AllPages(loads)
      && Loaded(before, ptm.tree, ptm.pmm.Live(), bytes, file, loads, ptm.nxSupport)
      && Records()
    }

    ghost predicate Records()
      reads `loads, `segmentCount, `segments, `kernelBase, segments
    {
      && |loads| == segmentCount <= segments.Length
      && (forall i :: 0 <= i < segmentCount ==>
           segments[i] == Recorded(loads[i]) && Describes(segments[i], loads[i].header))
      && LowestAddress(kernelBase, loads)
    }

    /** A block for a segment's pages; not `ok` when the memory manager fails. */
    method ClaimBlock(h: Header) returns (ok: bool, paddr: nat)
      requires Valid() && Loadable(h, file, Span(before.depth + 1))
      modifies ptm.pmm, ptm.pmm.slots
      ensures ok ==>
          ptm.Valid() && Pages(h) && paddr % PAGE == 0 && paddr + (h.Stop() - h.Start()) <= FRAME_LIMIT
          && paddr < FRAME_LIMIT
      ensures ok ==> Kept(old(ptm.pmm.Live()), ptm.pmm.Live())
      ensures ok ==>
          Backing(ptm.pmm.Live(), ptm.tree.slots.Keys, loads + [Load(h, paddr)])
          && BlocksApart(loads + [Load(h, paddr)])
      ensures !ok ==> ptm.pmm.Exhausted(h.PageCount())
    {
      hide Shape, Encoded, Backing, Claimed, Kept, Effect, Fits, LowestFit, CanHold, Lingering, Mappings, Filled,
          Traced, NoneSpoilt, ReachesPast, Need;
      ghost var live := ptm.pmm.Live();
      PagesOfHeader(h);
      BelowAlignment(live, FRAME_LIMIT);
      var length := h.Stop() - h.Start();
      var r := ptm.pmm.AllocExt(length / PAGE, PAGE, Allocated);
      if !r.Address? {
        return false, 0;
      }
      paddr := r.address;
      LowestHolds(live, length, PAGE, paddr);
      BlockClaimed(live, paddr, length, Allocated, ptm.pmm.Live());
      ClaimedHoused(live, ptm.tree, paddr, length, Allocated, ptm.pmm.Live(), FRAME_LIMIT);
      ClaimedKept(live, paddr, length, Allocated, ptm.pmm.Live());
      BackingClaimed(live, ptm.tree.slots.Keys, loads, Load(h, paddr), ptm.pmm.Live());
      return true, paddr;
    }

    method MapNext(startVaddr: nat, offset: nat, paddr: nat, write: bool, exec: bool, ghost t0: Tree,
        ghost all: seq<Load>) returns (ok: bool)
      requires ptm.Valid() && ptm.tree.depth == t0.depth && Backing(ptm.pmm.Live(), ptm.tree.slots.Keys, all)
      requires startVaddr % PAGE == 0 && offset % PAGE == 0 && paddr % PAGE == 0
      requires startVaddr + offset < ADDRESS_LIMIT && offset + PAGE <= Span(t0.depth + 1)
          && paddr + offset < FRAME_LIMIT
      requires MapsRange(t0, ptm.tree, startVaddr, paddr, offset, FRAME_LIMIT, Wanted(write, ptm.nxSupport && !exec))
      modifies ptm`memory, ptm`tree, ptm.pmm, ptm.pmm.slots
      ensures ok ==> ptm.Valid() && ptm.tree.depth == t0.depth && Backing(ptm.pmm.Live(), ptm.tree.slots.Keys, all)
      ensures ok ==> Kept(old(ptm.pmm.Live()), ptm.pmm.Live())
      ensures ok ==> MapsRange(t0, ptm.tree, startVaddr, paddr, offset + PAGE, FRAME_LIMIT,
          Wanted(write, ptm.nxSupport && !exec))
      ensures !ok ==> ptm.Stuck()
    {
      hide Ptm.Valid, Pmm.Valid, Tidy, Backing, MapsRange, Drawn, Grown, Kept, Remapped, Span, Pmm.Exhausted,
          ObstructedIn, ObstructedSomewhere;
      ptm.Manager();
      ghost var t, live, g := ptm.tree, ptm.pmm.Live(), Wanted(write, ptm.nxSupport && !exec);
      WholePages(startVaddr, offset);
      WholePages(paddr, offset);
      ok := ptm.Map(startVaddr + offset, paddr + offset, PAGE, write, exec);
      if !ok {
        if ObstructedIn(ptm.tree, startVaddr + offset, PAGE) {
          ObstructedAnywhere(ptm.tree, startVaddr + offset, PAGE);
        }
        return;
      }
      DrawnGrown(live, t.slots.Keys, ptm.pmm.Live(), ptm.tree.slots.Keys);
      BackingGrown(live, t.slots.Keys, all, ptm.pmm.Live(), ptm.tree.slots.Keys);
      GrownKept(live, t.slots.Keys, ptm.pmm.Live(), ptm.tree.slots.Keys);
      RangeJoin(t0, t, ptm.tree, startVaddr, paddr, offset, PAGE, FRAME_LIMIT, g);
      RangeDepth(t, ptm.tree, startVaddr + offset, paddr + offset, PAGE, FRAME_LIMIT, g);
    }

    /** The pages of a segment are mapped one by one. */
    method MapBlock(startVaddr: nat, endVaddr: nat, paddr: nat, write: bool, exec: bool, ghost all: seq<Load>)
        returns (ok: bool)
      requires ptm.Valid() && startVaddr <= endVaddr && endVaddr + PAGE <= ADDRESS_LIMIT
      requires startVaddr % PAGE == 0 && endVaddr % PAGE == 0 && paddr % PAGE == 0
      requires endVaddr - startVaddr <= Span(ptm.levelCount + 1) && paddr + (endVaddr - startVaddr) <= FRAME_LIMIT
      requires Backing(ptm.pmm.Live(), ptm.tree.slots.Keys, all)
      modifies ptm`memory, ptm`tree, ptm.pmm, ptm.pmm.slots
      ensures ok ==> ptm.Valid() && Backing(ptm.pmm.Live(), ptm.tree.slots.Keys, all)
      ensures ok ==> Kept(old(ptm.pmm.Live()), ptm.pmm.Live())
      ensures ok ==> MapsRange(old(ptm.tree), ptm.tree, startVaddr, paddr, endVaddr - startVaddr, FRAME_LIMIT,
          Wanted(write, ptm.nxSupport && !exec))
      ensures !ok ==> ptm.Stuck()
    {
      hide Ptm.Valid, Pmm.Valid, Tidy, Backing, MapsRange, Drawn, Grown, Kept, Remapped, Span, Pmm.Exhausted,
          ObstructedIn, ObstructedSomewhere;
      ptm.Manager();
      OnePage(ptm.levelCount);
      ghost var t0, g := ptm.tree, Wanted(write, ptm.nxSupport && !exec);
      NothingMapped(t0, startVaddr, paddr, FRAME_LIMIT, g);
      ghost var live := ptm.pmm.Live();
      KeptNothing(live);
      var j := startVaddr;
      while j < endVaddr
        invariant startVaddr <= j <= endVaddr && j % PAGE == 0
        invariant ptm.Valid() && ptm.tree.depth == t0.depth && Backing(ptm.pmm.Live(), ptm.tree.slots.Keys, all)
        invariant MapsRange(t0, ptm.tree, startVaddr, paddr, j - startVaddr, FRAME_LIMIT, g)
        invariant Kept(live, ptm.pmm.Live())
      {
        NextPage(j, endVaddr);
        PagesBehind(j, startVaddr);
        ghost var live1 := ptm.pmm.Live();
        ok := MapNext(startVaddr, j - startVaddr, paddr, write, exec, t0, all);
        if !ok { return; }
        KeptTwice(live, live1, ptm.pmm.Live());
        j := j + PAGE;
      }
      return true;
    }

    /** `internal_elf_handle_pt_load`; not `ok` when it panics. */
    method HandlePtLoad(h: Header) returns (ok: bool)
      requires Valid() && Loadable(h, file, Span(before.depth + 1)) && segmentCount < segments.Length
      modifies this`bytes, this`segmentCount, this`kernelBase, this`loads, segments, ptm`memory, ptm`tree, ptm.pmm,
          ptm.pmm.slots
      ensures ok ==> Valid() && segmentCount == old(segmentCount) + 1 && Kept(old(ptm.pmm.Live()), ptm.pmm.Live())
      ensures ok ==>
          |loads| == |old(loads)| + 1 && loads[..|old(loads)|] == old(loads) && loads[|old(loads)|].header == h
      ensures ok ==> Describes(segments[old(segmentCount)], h)
      ensures !ok ==> ptm.Stuck() || ptm.pmm.Exhausted(h.PageCount())
    {
      PagesOfHeader(h);
      hide Ptm.Valid, Pmm.Valid, Backing, BlocksApart, Mappings, AllFilled, MapsRange, Records, Kept, Describes,
          RecordFlags, Cleared, Copied, Promised, Filled, LowestAddress, Pmm.Exhausted, Ptm.Stuck;
      var flags := FlagsFor(h);
      var startVaddr, endVaddr := h.Start(), h.Stop();
      var paddr;
      ok, paddr := ClaimBlock(h);
      if !ok { return; }
      ghost var l, t, live1 := Load(h, paddr), ptm.tree, ptm.pmm.Live();
      ok := MapBlock(startVaddr, endVaddr, paddr, Bit(h.flags, PFLAGS_WRITE), Bit(h.flags, PFLAGS_EXECUTE),
          loads + [l]);
      if !ok { return; }
      KeptTwice(old(ptm.pmm.Live()), live1, ptm.pmm.Live());
      MappingsNext(before, t, ptm.tree, loads, l, ptm.nxSupport);
      FilledNext(bytes, file, loads, l);
      bytes := Cleared(bytes, paddr, endVaddr - startVaddr);
      bytes := Copied(bytes, paddr + h.vaddr % PAGE, file[h.offset..h.offset + h.filesz]);
      Record(h, paddr, flags);
      return true;
    }

    /** The segment's record is appended. */
    method Record(h: Header, paddr: nat, flags: nat)
      requires Records() && segmentCount < segments.Length && paddr % PAGE == 0 && flags == RecordFlags(h.flags)
      modifies this`segmentCount, this`kernelBase, this`loads, segments
      ensures Records() && loads == old(loads) + [Load(h, paddr)] && segmentCount == old(segmentCount) + 1
      ensures Describes(segments[old(segmentCount)], h)
    {
      LowestNext(kernelBase, loads, Load(h, paddr));
      RecordedDescribes(Load(h, paddr));
      hide LowestAddress, Describes, RecordFlags;
      segments[segmentCount] := Segment(h.vaddr, paddr + h.vaddr % PAGE, h.memsz, flags);
      segmentCount := segmentCount + 1;
      if kernelBase > h.vaddr {
        kernelBase := h.vaddr;
      }
      loads := loads + [Load(h, paddr)];
    }

    /** `internal_elf_load_image` up to the section headers: the records' own block is claimed,
        and the loadable segments are loaded in order; not `ok` when that panics. */
    method LoadImage(headers: seq<Header>) returns (ok: bool)
      requires ptm.Valid() && AllLoadable(headers, file, Span(ptm.levelCount + 1))
      modifies this, ptm`memory, ptm`tree, ptm.pmm, ptm.pmm.slots
      ensures ok ==> Valid() && before == old(ptm.tree) && segmentCount == |LoadHeaders(headers)|
      ensures ok ==> Kept(old(ptm.pmm.Live()), ptm.pmm.Live())
      ensures ok && segmentCount > 0 ==> HasRoom(ptm.pmm.Live(), recordsAt, 25 * segmentCount)
      ensures ok ==> forall i :: 0 <= i < segmentCount ==> loads[i].header == LoadHeaders(headers)[i]
      ensures ok ==> forall i :: 0 <= i < segmentCount ==> Describes(segments[i], LoadHeaders(headers)[i])
      ensures !ok ==>
          || ptm.Stuck() || ptm.pmm.Exhausted(RecordPages(headers))
          || exists h :: h in headers && ptm.pmm.Exhausted(h.PageCount())
    {
      hide Ptm.Valid, Pmm.Valid, Loaded, AllLoadable, LowestAddress, Kept, Ceil, LoadHeaders;
      RecordsFit(headers, file, Span(ptm.levelCount + 1));
      var count := CountLoads(headers);
      ok, recordsAt := ClaimRecords(count);
      if !ok { return; }
      Reset(count);
      ghost var live1 := ptm.pmm.Live();
      ok := LoadSegments(headers);
      if !ok { return; }
      KeptTwice(old(ptm.pmm.Live()), live1, ptm.pmm.Live());
      if segmentCount > 0 { RoomKept(live1, recordsAt, 25 * segmentCount, ptm.pmm.Live()); }
    }

    /** No segments yet, and room for so many records. */
    method Reset(count: nat)
      requires ptm.Valid()
      modifies this
      ensures Valid() && before == ptm.tree && segmentCount == 0 && recordsAt == old(recordsAt)
      ensures fresh(segments) && segments.Length == count
    {
      hide Ptm.Valid, Pmm.Valid, Loaded, LowestAddress;
      ptm.Manager();
      before := ptm.tree;
      segments := new Segment[count];
      segmentCount, kernelBase, loads := 0, ADDRESS_LIMIT - 1, [];
      NothingLoaded(ptm.tree, ptm.pmm.Live(), bytes, file, ptm.nxSupport);
    }

    method LoadSegments(headers: seq<Header>) returns (ok: bool)
      requires Valid() && AllLoadable(headers, file, Span(before.depth + 1))
      requires segmentCount == 0 && segments.Length == |LoadHeaders(headers)|
      modifies this`bytes, this`segmentCount, this`kernelBase, this`loads, segments, ptm`memory, ptm`tree, ptm.pmm,
          ptm.pmm.slots
      ensures ok ==> Valid() && segmentCount == |LoadHeaders(headers)| && Kept(old(ptm.pmm.Live()), ptm.pmm.Live())
      ensures ok ==> forall i :: 0 <= i < segmentCount ==> loads[i].header == LoadHeaders(headers)[i]
      ensures ok ==> forall i :: 0 <= i < segmentCount ==> Describes(segments[i], LoadHeaders(headers)[i])
      ensures !ok ==> ptm.Stuck() || exists h :: h in headers && ptm.pmm.Exhausted(h.PageCount())
    {
      hide Ptm.Valid, Pmm.Valid, Loaded, Loadable, LowestAddress, LoadHeaders, Kept;
      FirstHeader(headers);
      ghost var live := ptm.pmm.Live();
      KeptNothing(live);
      for i := 0 to |headers|
        invariant Valid() && segmentCount == |LoadHeaders(headers[..i])| && Kept(live, ptm.pmm.Live())
        invariant forall j :: 0 <= j < segmentCount ==> loads[j].header == LoadHeaders(headers[..i])[j]
      {
        NextHeader(headers, i);
        if headers[i].kind != PTYPE_LOAD { continue; }
        ghost var live1 := ptm.pmm.Live();
        ok := HandlePtLoad(headers[i]);
        if !ok { return; }
        KeptTwice(live, live1, ptm.pmm.Live());
      }
      assert headers[..|headers|] == headers;
      return true;
    }

    /** The block for the records, long enough for so many. */
    method ClaimRecords(count: nat) returns (ok: bool, block: nat)
      requires ptm.Valid() && Ceil(count * SEGMENT_SIZE, PAGE) < ADDRESS_LIMIT
      modifies ptm.pmm, ptm.pmm.slots
      ensures ok ==> ptm.Valid() && Kept(old(ptm.pmm.Live()), ptm.pmm.Live())
      ensures ok && count > 0 ==> HasRoom(ptm.pmm.Live(), block, 25 * count)
      ensures !ok ==> ptm.pmm.Exhausted(Ceil(count * SEGMENT_SIZE, PAGE) / PAGE)
    {
      hide Shape, Encoded, Claimed, Kept, Effect, Fits, LowestFit, CanHold, Lingering, Traced, NoneSpoilt, ReachesPast,
          Need;
      ghost var live := ptm.pmm.Live();
      BelowAlignment(live, FRAME_LIMIT);
      CeilLeast(count * SEGMENT_SIZE, PAGE);
      var pages := Ceil(count * SEGMENT_SIZE, PAGE) / PAGE;
      var r := ptm.pmm.Alloc(pages);
      if !r.Address? {
        return false, 0;
      }
      LowestHolds(live, pages * PAGE, PAGE, r.address);
      BlockClaimed(live, r.address, pages * PAGE, Allocated, ptm.pmm.Live());
      ClaimedHoused(live, ptm.tree, r.address, pages * PAGE, Allocated, ptm.pmm.Live(), FRAME_LIMIT);
      ClaimedKept(live, r.address, pages * PAGE, Allocated, ptm.pmm.Live());
      if count > 0 {
        ClaimedHeld(live, r.address, pages * PAGE, Allocated, ptm.pmm.Live());
        HeldRoom(ptm.pmm.Live(), r.address, pages * PAGE, 25 * count);
      }
      return true, r.address;
    }

    /** The first segment that holds the address decides where it is in physical memory. */
    method FindInfo(address: nat) returns (found: bool, paddr: nat, ghost i: nat)
      requires Valid() && AllLoaded(loads, file, Span(before.depth + 1))
      ensures found <==> exists j :: 0 <= j < segmentCount && segments[j].Has(address)
      ensures found ==>
          i < segmentCount && segments[i].Has(address) && forall j :: 0 <= j < i ==> !segments[j].Has(address)
      ensures found ==> (FoundAt(ptm.tree, address, paddr) <==> LastAt(loads, i, address, Span(before.depth + 1)))
    {
      hide Ptm.Valid, Loaded, LowestAddress, LastAt, FoundAt, AllPages, Loadable;
      for j := 0 to segmentCount
        invariant forall n :: 0 <= n < j ==> !segments[n].Has(address)
      {
        if segments[j].Has(address) {
          paddr := segments[j].paddr + (address - segments[j].vaddr);
          RecordTranslated(before, ptm.tree, ptm.pmm.Live(), bytes, file, loads, ptm.nxSupport, j, address);
          return true, paddr, j;
        }
      }
      return false, 0, 0;
    }
  }

  ghost predicate AllLoadable(headers: seq<Header>, file: seq<nat>, width: nat) {
    && Ceil(|headers| * SEGMENT_SIZE, PAGE) < ADDRESS_LIMIT
    && forall i :: 0 <= i < |headers| && headers[i].kind == 1 ==> Loadable(headers[i], file, width)
  }

  /** Pages for the records of the loadable segments. */
  ghost function RecordPages(headers: seq<Header>): nat { Ceil(|LoadHeaders(headers)| * SEGMENT_SIZE, PAGE) / PAGE }

  lemma RecordsFit(headers: seq<Header>, file: seq<nat>, width: nat)
    requires AllLoadable(headers, file, width)
    ensures Ceil(|LoadHeaders(headers)| * SEGMENT_SIZE, PAGE) < ADDRESS_LIMIT
  {
    CeilMono(|LoadHeaders(headers)| * SEGMENT_SIZE, |headers| * SEGMENT_SIZE, PAGE);
  }

  /** The headers of the loadable segments, in file order. */
  ghost function LoadHeaders(headers: seq<Header>): (r: seq<Header>)
    ensures |r| <= |headers|
  {
    if headers == [] then []
    else
      var n := |headers| - 1;
      LoadHeaders(headers[..n]) + if headers[n].kind == 1 then [headers[n]] else []
  }

  lemma FirstHeader(headers: seq<Header>)
    ensures LoadHeaders(headers[..0]) == []
  {
  }

  lemma NextHeader(headers: seq<Header>, i: nat)
    requires i < |headers|
    ensures LoadHeaders(headers[..i + 1]) == LoadHeaders(headers[..i]) + if headers[i].kind == 1
        then [headers[i]] else []
    ensures |LoadHeaders(headers[..i + 1])| <= |LoadHeaders(headers)|
  {
    assert headers[..i + 1][..i] == headers[..i];
    MoreHeaders(headers, i + 1);
  }

  lemma {:induction false} MoreHeaders(headers: seq<Header>, i: nat)
    requires i <= |headers|
    ensures |LoadHeaders(headers[..i])| <= |LoadHeaders(headers)|
  {
    if i < |headers| {
      var n := |headers| - 1;
      MoreHeaders(headers[..n], i);
      assert headers[..n][..i] == headers[..i];
    } else {
      assert headers[..i] == headers;
    }
  }

  method CountLoads(headers: seq<Header>) returns (count: nat)
    ensures count == |LoadHeaders(headers)|
  {
    count := 0;
    for i := 0 to |headers|
      invariant count == |LoadHeaders(headers[..i])|
    {
      NextHeader(headers, i);
      if headers[i].kind == PTYPE_LOAD {
        count := count + 1;
      }
    }
    assert headers[..|headers|] == headers;
  }

  lemma NothingLoaded(t: Tree, live: seq<Entry>, bytes: nat -> nat, file: seq<nat>, nxSupport: bool)
    ensures Loaded(t, t, live, bytes, file, [], nxSupport) && LowestAddress(ADDRESS_LIMIT - 1, [])
  {
  }
}
