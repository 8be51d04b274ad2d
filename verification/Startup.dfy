/** The start-up sequence as a whole: tables, kernel image, page database, direct map and the
    exported memory map are made one after the other, out of one memory map and in one set of
    tables, and none of them spoils what was made before. */
module Startup {
  import opened Options
  import opened MemoryMap
  import opened MapUpdate
  import opened Allocation
  import opened Pmm
  import opened SlotTrace
  import opened Frames
  import opened PageTree
  import opened TableMemory
  import opened Hhdm
  import opened Paging
  import opened X86Words
  import opened X86Ptm
  import opened KernelLoader
  import opened MapExport
  import PageDb

  /** An address behind the page database translates as it did before that was mapped. */
  lemma BehindArray(t0: Tree, t: Tree, live0: seq<Entry>, live: seq<Entry>, base: nat, size: nat, limit: nat,
      frames: map<nat, nat>, g: Grant, x: nat)
    requires PageDb.Provided(t0, t, live0, live, base, size, limit, frames, g)
    requires base + PageDb.ArrayPages(limit, size) * PAGE <= x < base + Span(t0.depth + 1)
    ensures Translate(t, x) == Translate(t0, x)
  {
    hide Translate, Span, PageDb.ArrayPages;
    DistanceForward(base, x - base, Span(t0.depth + 1));
    var pages := PageDb.ArrayPages(limit, size);
    PageDb.PageOffset(x - base, (x - base) / PAGE);
    assert (x - base) / PAGE >= pages;
    assert Translate(t, x) == PageDb.ArrayAt(t0, base, frames, g, x);
  }

  /** An address behind the direct map translates as it did before that was mapped. */
  lemma BehindDirectMap(t0: Tree, t: Tree, live: seq<Entry>, hhdm: nat, limit: nat, g: Grant, x: nat)
    requires DirectlyMapped(t0, t, live, hhdm, g) && Below(live, limit)
    requires hhdm + limit + PAGE <= x < hhdm + Span(t0.depth + 1)
    ensures Translate(t, x) == Translate(t0, x)
  {
    hide Translate, Span;
    DistanceForward(hhdm, x - hhdm, Span(t0.depth + 1));
    forall a: nat | a / PAGE == (x - hhdm) / PAGE ensures Cover(live, a) == [] {
      assert a >= limit;
    }
    assert NoMemoryNear(live, Distance(x, hhdm, Span(t0.depth + 1)));
  }

  /** Every segment ends within the width of the tables, counted from the direct map. */
  ghost predicate Reachable(loads: seq<Load>, hhdm: nat, width: nat) {
    forall i :: 0 <= i < |loads| ==> loads[i].header.vaddr + loads[i].header.memsz <= hhdm + width
  }

  /** Every byte of every segment is read at its address as the file promises. */
  ghost predicate KernelReadable(t: Tree, bytes: nat -> nat, file: seq<nat>, loads: seq<Load>, nxSupport: bool) {
    forall i, k: nat :: 0 <= i < |loads| && k < loads[i].header.memsz ==>
      ReadsAs(t, bytes, loads[i], k, Promised(loads[i].header, file, k), nxSupport)
  }

  /** The kernel image survives the page database and the direct map. */
  lemma KernelSurvives(t1: Tree, t2: Tree, t3: Tree, bytes: nat -> nat, file: seq<nat>, loads: seq<Load>,
      kernelBase: nat, nxSupport: bool, live1: seq<Entry>, live2: seq<Entry>, live3: seq<Entry>, hhdm: nat, limit: nat,
      size: nat, frames: map<nat, nat>, g: Grant)
    requires KernelReadable(t1, bytes, file, loads, nxSupport) && LowestAddress(kernelBase, loads)
    requires PageDb.Provided(t1, t2, live1, live2, hhdm + limit + PAGE, size, limit, frames, g)
    requires hhdm + limit + PAGE + PageDb.ArrayPages(limit, size) * PAGE <= kernelBase
    requires DirectlyMapped(t2, t3, live3, hhdm, g) && Below(live3, limit) && t1.depth == t2.depth
    requires Reachable(loads, hhdm, Span(t1.depth + 1))
    ensures KernelReadable(t3, bytes, file, loads, nxSupport)
  {
    hide Translate, Span, PageDb.Provided, DirectlyMapped, Below, PageDb.ArrayPages;
    forall i, k: nat | 0 <= i < |loads| && k < loads[i].header.memsz
      ensures ReadsAs(t3, bytes, loads[i], k, Promised(loads[i].header, file, k), nxSupport)
    {
      var x := loads[i].header.vaddr + k;
      assert ReadsAs(t1, bytes, loads[i], k, Promised(loads[i].header, file, k), nxSupport);
      BehindArray(t1, t2, live1, live2, hhdm + limit + PAGE, size, limit, frames, g, x);
      BehindDirectMap(t2, t3, live3, hhdm, limit, g, x);
    }
  }

  /** The page database survives the direct map. */
  lemma ArraySurvives(t1: Tree, t2: Tree, t3: Tree, live1: seq<Entry>, live2: seq<Entry>, live3: seq<Entry>, hhdm: nat,
      limit: nat, size: nat, frames: map<nat, nat>, g: Grant, b: nat)
    requires PageDb.Provided(t1, t2, live1, live2, hhdm + limit + PAGE, size, limit, frames, g)
    requires DirectlyMapped(t2, t3, live3, hhdm, g) && Below(live3, limit) && t1.depth == t2.depth
    requires limit + PAGE + PageDb.ArrayPages(limit, size) * PAGE <= Span(t1.depth + 1) && b / PAGE in frames
    ensures Translate(t3, hhdm + limit + PAGE + b) == Some(Hit(frames[b / PAGE] + b % PAGE, g))
  {
    hide Translate, Span, PageDb.ArrayPages, PageDb.ArrayMapped, PageDb.ArrayFrames, PageDb.RecordsMapped,
        DirectlyMapped, Below;
    assert b < PageDb.ArrayPages(limit, size) * PAGE by {
      PageDb.PageOffset(b, b / PAGE);
    }
    PageDb.ByteMapped(t1, t2, hhdm + limit + PAGE, frames, g, b);
    BehindDirectMap(t2, t3, live3, hhdm, limit, g, hhdm + limit + PAGE + b);
  }

  /** The memory of the segments stays allocated to them. */
  ghost predicate SegmentsHeld(live: seq<Entry>, loads: seq<Load>)
    requires AllPages(loads)
  {
    forall i :: 0 <= i < |loads| && loads[i].Length() > 0 ==>
        Holds(live, loads[i].block, loads[i].block + loads[i].Length(), Allocated)
  }

  lemma SegmentsBacked(live: seq<Entry>, pages: set<nat>, loads: seq<Load>)
    requires Backing(live, pages, loads)
    ensures AllPages(loads) && SegmentsHeld(live, loads)
  {
  }

  // ---------------------------------------------------------------- the sequence

  /** What the caller has arranged: the virtual layout leaves room for the direct map, the page
      database and the kernel, in this order and within the width of the tables. */
  ghost predicate Layout(headers: seq<Header>, file: seq<nat>, hhdm: nat, limit: nat, entrySize: nat, width: nat) {
    && AllLoadable(headers, file, width) && Room(hhdm, limit, entrySize, width)
    && forall i :: 0 <= i < |headers| ==> headers[i].vaddr + headers[i].memsz <= hhdm + width
  }

  /** The direct map of `limit` bytes and the page database behind it stay within the width. */
  ghost predicate Room(hhdm: nat, limit: nat, entrySize: nat, width: nat) {
    && limit <= width && hhdm < ADDRESS_LIMIT
    && hhdm + limit + PAGE + PageDb.ArrayPages(limit, entrySize) * PAGE <= ADDRESS_LIMIT
    && limit + PAGE + PageDb.ArrayPages(limit, entrySize) * PAGE <= width
  }

  lemma LayoutSmaller(headers: seq<Header>, file: seq<nat>, hhdm: nat, limit: nat, entrySize: nat, width: nat,
      smaller: nat)
    requires Layout(headers, file, hhdm, limit, entrySize, width) && smaller <= limit
    ensures Layout(headers, file, hhdm, smaller, entrySize, width)
  {
    PageDb.ArrayMono(smaller, limit, entrySize);
  }

  lemma {:induction false} HeadersReachable(headers: seq<Header>, hhdm: nat, width: nat)
    requires forall i :: 0 <= i < |headers| ==> headers[i].vaddr + headers[i].memsz <= hhdm + width
    ensures forall i :: 0 <= i < |LoadHeaders(headers)| ==>
        LoadHeaders(headers)[i].vaddr + LoadHeaders(headers)[i].memsz <= hhdm + width
  {
    if headers != [] {
      HeadersReachable(headers[..|headers| - 1], hhdm, width);
    }
  }

  lemma {:induction false} HeadersLoadable(headers: seq<Header>, file: seq<nat>, width: nat)
    requires forall i :: 0 <= i < |headers| && headers[i].kind == PTYPE_LOAD ==> Loadable(headers[i], file, width)
    ensures forall i :: 0 <= i < |LoadHeaders(headers)| ==> Loadable(LoadHeaders(headers)[i], file, width)
  {
    hide Loadable;
    if headers != [] {
      HeadersLoadable(headers[..|headers| - 1], file, width);
    }
  }

  lemma EntryBelow(live: seq<Entry>, limit: nat, e: Entry)
    requires WellFormed(live) && Below(live, limit) && e in live
    ensures e.End() <= limit
  {
    var j :| 0 <= j < |live| && live[j] == e;
    CoverAlone(live, 0, j, e.End() - 1);
  }

  /** The kernel image is loaded, and can be read as long as its segments share no page. */
  method LoadKernel(loader: Loader, headers: seq<Header>, ghost hhdm: nat) returns (ok: bool)
    requires loader.ptm.Valid() && AllLoadable(headers, loader.file, Span(loader.ptm.levelCount + 1))
    requires forall i :: 0 <= i < |headers| ==>
        headers[i].vaddr + headers[i].memsz <= hhdm + Span(loader.ptm.levelCount + 1)
    modifies loader, loader.ptm`memory, loader.ptm`tree, loader.ptm.pmm, loader.ptm.pmm.slots
    ensures ok ==> loader.ptm.Valid() && Kept(old(loader.ptm.pmm.Live()), loader.ptm.pmm.Live())
    ensures ok ==> Backing(loader.ptm.pmm.Live(), loader.ptm.tree.slots.Keys, loader.loads) && BlocksApart(loader.loads)
    ensures ok ==>
        Reachable(loader.loads, hhdm, Span(loader.ptm.levelCount + 1)) && LowestAddress(loader.kernelBase, loader.loads)
    ensures ok && PagesApart(loader.loads, Span(loader.ptm.levelCount + 1)) ==>
              KernelReadable(loader.ptm.tree, loader.bytes, loader.file, loader.loads, loader.ptm.nxSupport)
  {
    hide Ptm.Valid, Pmm.Valid, Kept, Span, Loadable, LoadHeaders, LowestAddress, Mappings, AllFilled, BlocksApart,
        PagesApart, Holds;
    HeadersReachable(headers, hhdm, Span(loader.ptm.levelCount + 1));
    HeadersLoadable(headers, loader.file, Span(loader.ptm.levelCount + 1));
    ok := loader.LoadImage(headers);
    if !ok { return; }
    if PagesApart(loader.loads, Span(loader.ptm.levelCount + 1)) {
      KernelReadsAll(loader.before, loader.ptm.tree, loader.ptm.pmm.Live(), loader.bytes, loader.file, loader.loads,
          loader.ptm.nxSupport);
    }
  }

  /** The block for the per-core start information; not `ok` when the memory manager fails. */
  method ClaimStartBlock(ptm: Ptm, pages: nat) returns (ok: bool, block: nat)
    requires ptm.Valid() && pages * PAGE < ADDRESS_LIMIT
    modifies ptm.pmm, ptm.pmm.slots
    ensures ok ==> ptm.Valid()
    ensures ok ==> Grown(old(ptm.pmm.Live()), ptm.tree.slots.Keys, ptm.pmm.Live(), ptm.tree.slots.Keys)
  {
    hide Shape, Encoded, Claimed, Kept, Effect, Fits, LowestFit, CanHold, Lingering, Traced, NoneSpoilt, ReachesPast,
        Need;
    ghost var live := ptm.pmm.Live();
    BelowAlignment(live, FRAME_LIMIT);
    var r := ptm.pmm.Alloc(pages);
    if !r.Address? {
      return false, 0;
    }
    LowestHolds(live, pages * PAGE, PAGE, r.address);
    BlockClaimed(live, r.address, pages * PAGE, Allocated, ptm.pmm.Live());
    ClaimedHoused(live, ptm.tree, r.address, pages * PAGE, Allocated, ptm.pmm.Live(), FRAME_LIMIT);
    ClaimedKept(live, r.address, pages * PAGE, Allocated, ptm.pmm.Live());
    GrownNoTable(live, ptm.tree.slots.Keys, ptm.pmm.Live());
    return true, r.address;
  }

  /** What the sequence has made, and what it was made from. */
  datatype Prepared = Prepared(hhdmSize: nat, arrayBase: nat, arraySize: nat)

  /** The tables after the sequence: the record of every good frame of `live` is in the page
      database, and all its memory is in the direct map. */
  ghost predicate AllMapped(t: Tree, live: seq<Entry>, hhdm: nat, entrySize: nat, r: Prepared, frames: map<nat, nat>,
      nxSupport: bool) {
    && PageDb.RecordsMapped(live, entrySize, frames)
    && (forall b: nat :: b / PAGE in frames ==>
        && b < r.arraySize
        && Translate(t, r.arrayBase + b) == Some(Hit(frames[b / PAGE] + b % PAGE, Grant(true, true, !nxSupport))))
    && (forall a: nat :: Cover(live, a) != [] && Cover(live, a) != [Bad] ==>
        Translate(t, hhdm + a) == Some(Hit(a, Grant(true, true, !nxSupport))))
  }

  /** Memory that was good stays good, so all of it is in the direct map. */
  lemma DirectlyMappedSince(t0: Tree, t: Tree, live: seq<Entry>, live3: seq<Entry>, hhdm: nat, g: Grant, limit: nat,
      a: nat)
    requires DirectlyMapped(t0, t, live3, hhdm, g) && Kept(live, live3) && Below(live, limit)
        && limit <= Span(t0.depth + 1)
    requires Cover(live, a) != [] && Cover(live, a) != [Bad]
    ensures Translate(t, hhdm + a) == Some(Hit(a, g))
  {
    hide Translate, Span, Distance, Kept, Cover, NoMemoryNear;
    KeptGood(live, live3, a);
    DistanceForward(hhdm, a, Span(t0.depth + 1));
  }

  lemma KeptGood(live: seq<Entry>, live': seq<Entry>, a: nat)
    requires Kept(live, live') && Cover(live, a) != [] && Cover(live, a) != [Bad]
    ensures Cover(live', a) != [] && Cover(live', a) != [Bad]
  {
  }

  lemma EverythingMapped(t1: Tree, t2: Tree, t3: Tree, bytes: nat -> nat, file: seq<nat>, loads: seq<Load>,
      kernelBase: nat, nxSupport: bool, live1: seq<Entry>, live2: seq<Entry>, live3: seq<Entry>, hhdm: nat, limit: nat,
      size: nat, frames: map<nat, nat>)
    requires LowestAddress(kernelBase, loads)
    requires PageDb.Provided(t1, t2, live1, live2, hhdm + limit + PAGE, size, limit, frames, Wanted(true, nxSupport))
    requires hhdm + limit + PAGE + PageDb.ArrayPages(limit, size) * PAGE <= kernelBase
    requires limit + PAGE + PageDb.ArrayPages(limit, size) * PAGE <= Span(t1.depth + 1)
    requires DirectlyMapped(t2, t3, live3, hhdm, Wanted(true, nxSupport)) && t1.depth == t2.depth
    requires Below(live1, limit) && Kept(live1, live3) && Reachable(loads, hhdm, Span(t1.depth + 1))
    ensures AllMapped(t3, live1, hhdm, size, Prepared(limit, hhdm + limit + PAGE, PageDb.ArrayPages(limit,
        size) * PAGE), frames, nxSupport)
    ensures KernelReadable(t1, bytes, file, loads, nxSupport) ==> KernelReadable(t3, bytes, file, loads, nxSupport)
  {
    hide Translate, Span, PageDb.ArrayPages, DirectlyMapped, Below, Kept, KernelReadable, LowestAddress, Reachable,
        PageDb.ArrayMapped, PageDb.ArrayFrames, PageDb.RecordsMapped;
    var g := Wanted(true, nxSupport);
    KeptBelow(live1, live3, limit);
    if KernelReadable(t1, bytes, file, loads, nxSupport) {
      KernelSurvives(t1, t2, t3, bytes, file, loads, kernelBase, nxSupport, live1, live2, live3, hhdm, limit, size,
          frames, g);
    }
    forall b: nat | b / PAGE in frames
      ensures b < PageDb.ArrayPages(limit, size) * PAGE && Translate(t3, hhdm + limit + PAGE + b) ==
          Some(Hit(frames[b / PAGE] + b % PAGE, g))
    {
      PageDb.PageOffset(b, b / PAGE);
      ArraySurvives(t1, t2, t3, live1, live2, live3, hhdm, limit, size, frames, g, b);
    }
    forall a: nat | Cover(live1, a) != [] && Cover(live1, a) != [Bad] ensures Translate(t3, hhdm + a) ==
        Some(Hit(a, g)) {
      DirectlyMappedSince(t2, t3, live1, live3, hhdm, g, limit, a);
    }
  }

  /** From the loaded kernel to complete tables; not `ok` when something panics. */
  method MapAll(ptm: Ptm, kernelBase: nat, hhdm: nat, hhdmSize: nat, entrySize: nat, startPages: nat,
      ghost bytes: nat -> nat, ghost file: seq<nat>, ghost loads: seq<Load>)
    returns (ok: bool, r: Prepared, ghost frames: map<nat, nat>)
    requires ptm.Valid() && Below(ptm.pmm.Live(), hhdmSize) && startPages * PAGE < ADDRESS_LIMIT
    requires LowestAddress(kernelBase, loads)
    requires Reachable(loads, hhdm, Span(ptm.levelCount + 1))
        && Room(hhdm, hhdmSize, entrySize, Span(ptm.levelCount + 1))
    modifies ptm`memory, ptm`tree, ptm.pmm, ptm.pmm.slots
    ensures ok ==> ptm.Valid()
    ensures ok ==> Grown(old(ptm.pmm.Live()), old(ptm.tree.slots.Keys), ptm.pmm.Live(), ptm.tree.slots.Keys)
    ensures ok ==> AllMapped(ptm.tree, old(ptm.pmm.Live()), hhdm, entrySize, r, frames, ptm.nxSupport)
    ensures ok ==> PageDb.ArrayFrames(old(ptm.pmm.Live()), ptm.pmm.Live(), frames)
    ensures ok && KernelReadable(old(ptm.tree), bytes, file, loads, ptm.nxSupport) ==>
        KernelReadable(ptm.tree, bytes, file, loads, ptm.nxSupport)
    ensures ok ==> r.hhdmSize == hhdmSize && hhdm + hhdmSize < r.arrayBase && r.arrayBase + r.arraySize <= kernelBase
  {
    hide Ptm.Valid, Pmm.Valid, Kept, Grown, Span, LowestAddress, KernelReadable, Reachable, AllMapped, PageDb.Provided,
        DirectlyMapped, Below, PageDb.ArrayPages, PageDb.ArrayFrames, Shape, Encoded, Housed, Tidy;
    ptm.Manager();
    ghost var live1, t1 := ptm.pmm.Live(), ptm.tree;
    var base, size;
    ok, base, size, frames := PageDb.Setup(ptm, kernelBase, entrySize, hhdm, hhdmSize);
    r := Prepared(hhdmSize, base, size);
    if !ok { return; }
    ptm.Manager();
    ghost var live2, t2 := ptm.pmm.Live(), ptm.tree;
    GrownKept(live1, t1.slots.Keys, live2, t2.slots.Keys);
    KeptBelow(live1, live2, hhdmSize);
    ghost var live3;
    ok, live3 := MapMemory(ptm, hhdm, startPages, hhdmSize);
    if !ok { return; }
    GrownTwice(live1, t1.slots.Keys, live2, t2.slots.Keys, ptm.pmm.Live(), ptm.tree.slots.Keys);
    GrownKept(live2, t2.slots.Keys, ptm.pmm.Live(), ptm.tree.slots.Keys);
    KeptTwice(live1, live2, live3);
    KeptTwice(live1, live2, ptm.pmm.Live());
    ProvidedFrames(t1, t2, live1, live2, base, entrySize, hhdmSize, frames, Wanted(true, ptm.nxSupport));
    PageDb.FramesKept(live1, live2, frames, ptm.pmm.Live());
    EverythingMapped(t1, t2, ptm.tree, bytes, file, loads, kernelBase, ptm.nxSupport, live1, live2, live3, hhdm,
        hhdmSize, entrySize, frames);
  }

  /** The start block is claimed and the direct map made; `live3` is the memory map it is made
      from. */
  method MapMemory(ptm: Ptm, hhdm: nat, startPages: nat, ghost limit: nat) returns (ok: bool, ghost live3: seq<Entry>)
    requires ptm.Valid() && hhdm < ADDRESS_LIMIT && startPages * PAGE < ADDRESS_LIMIT
    requires Below(ptm.pmm.Live(), limit) && limit <= Span(ptm.levelCount + 1)
    modifies ptm`memory, ptm`tree, ptm.pmm, ptm.pmm.slots
    ensures ok ==> ptm.Valid() && Kept(old(ptm.pmm.Live()), live3)
    ensures ok ==> Grown(old(ptm.pmm.Live()), old(ptm.tree.slots.Keys), ptm.pmm.Live(), ptm.tree.slots.Keys)
    ensures ok ==> DirectlyMapped(old(ptm.tree), ptm.tree, live3, hhdm, Wanted(true, ptm.nxSupport))
  {
    hide Ptm.Valid, Pmm.Valid, Kept, Grown, Span, DirectlyMapped, Below;
    ghost var live2, pages := ptm.pmm.Live(), ptm.tree.slots.Keys;
    var block;
    live3 := live2;
    ok, block := ClaimStartBlock(ptm, startPages);
    if !ok { return; }
    live3 := ptm.pmm.Live();
    GrownKept(live2, pages, live3, pages);
    KeptBelow(live2, live3, limit);
    BelowWider(live3, limit, Span(ptm.levelCount + 1));
    ghost var entries;
    ok, entries := ptm.CreateHhdmMappings(hhdm);
    if !ok { return; }
    GrownTwice(live2, pages, live3, pages, ptm.pmm.Live(), ptm.tree.slots.Keys);
  }

  lemma ProvidedFrames(t0: Tree, t: Tree, live0: seq<Entry>, live: seq<Entry>, base: nat, size: nat, limit: nat,
      frames: map<nat, nat>, g: Grant)
    requires PageDb.Provided(t0, t, live0, live, base, size, limit, frames, g)
    ensures PageDb.ArrayFrames(live0, live, frames)
  {
  }

  lemma BelowWider(live: seq<Entry>, limit: nat, wider: nat)
    requires Below(live, limit) && limit <= wider
    ensures Below(live, wider)
  {
  }

  /** The sequence from empty tables on, up to the export of the memory map: not `ok` when
      something panics.  `limit` bounds the memory there is, and `live` is the memory map once
      the kernel is loaded. */
  method Prepare(loader: Loader, headers: seq<Header>, hhdm: nat, initialSize: nat, entrySize: nat, startPages: nat,
      ghost limit: nat)
    returns (ok: bool, r: Prepared, ghost frames: map<nat, nat>, ghost live: seq<Entry>)
    requires loader.ptm.Valid() && Below(loader.ptm.pmm.Live(), limit) && initialSize <= limit
        && startPages * PAGE < ADDRESS_LIMIT
    requires Layout(headers, loader.file, hhdm, limit, entrySize, Span(loader.ptm.levelCount + 1))
    modifies loader, loader.ptm`memory, loader.ptm`tree, loader.ptm.pmm, loader.ptm.pmm.slots
    ensures ok ==> loader.ptm.Valid() && Kept(old(loader.ptm.pmm.Live()), live) && Kept(live, loader.ptm.pmm.Live())
    ensures ok ==> Backing(loader.ptm.pmm.Live(), loader.ptm.tree.slots.Keys, loader.loads) && BlocksApart(loader.loads)
    ensures ok ==>
        hhdm + r.hhdmSize < r.arrayBase && r.arrayBase + r.arraySize <= loader.kernelBase && Below(live, r.hhdmSize)
    ensures ok ==> AllMapped(loader.ptm.tree, live, hhdm, entrySize, r, frames, loader.ptm.nxSupport)
    ensures ok ==> PageDb.ArrayFrames(live, loader.ptm.pmm.Live(), frames)
    ensures ok && PagesApart(loader.loads, Span(loader.ptm.levelCount + 1)) ==>
              KernelReadable(loader.ptm.tree, loader.bytes, loader.file, loader.loads, loader.ptm.nxSupport)
  {
    hide Ptm.Valid, Pmm.Valid, Kept, Grown, Span, Below, LowestAddress, KernelReadable, Reachable, AllMapped,
        PagesApart, Backing, BlocksApart, Loadable, PageDb.ArrayPages, PageDb.ArrayFrames, AllPages, Shape, Encoded,
        Housed, Tidy;
    var ptm := loader.ptm;
    ghost var live0 := ptm.pmm.Live();
    r, frames, live := Prepared(0, 0, 0), map[], live0;
    ok := LoadKernel(loader, headers, hhdm);
    if !ok { return; }
    ptm.Manager();
    live := ptm.pmm.Live();
    ghost var pages := ptm.tree.slots.Keys;
    KeptBelow(live0, live, limit);
    var hhdmSize := PageDb.DirectMapSize(ptm.pmm, initialSize);
    if e :| e in live && hhdmSize == e.End() {
      EntryBelow(live, limit, e);
    }
    LayoutSmaller(headers, loader.file, hhdm, limit, entrySize, Span(ptm.levelCount + 1), hhdmSize);
    ok, r, frames := MapAll(ptm, loader.kernelBase, hhdm, hhdmSize, entrySize, startPages, loader.bytes, loader.file,
        loader.loads);
    if !ok { return; }
    GrownKept(live, pages, ptm.pmm.Live(), ptm.tree.slots.Keys);
    BackingGrown(live, pages, loader.loads, ptm.pmm.Live(), ptm.tree.slots.Keys);
  }

  // ---------------------------------------------------------------- what the kernel is told

  /** The exported table tells the kernel that its image is the loader's, and that the page
      database is in use; neither is ever offered as usable. */
  ghost predicate ToldAbout(table: seq<HandedEntry>, loads: seq<Load>, frames: map<nat, nat>)
    requires AllPages(loads)
  {
    && (forall i, a: nat :: 0 <= i < |loads| && loads[i].block <= a < loads[i].block + loads[i].Length() ==>
        Told(table, a) == [Reclaimable])
    && (forall n, a: nat :: n in frames && frames[n] <= a < frames[n] + PAGE ==> Told(table, a) == [InUse])
  }

  lemma TableTells(live: seq<Entry>, block: Block, live': seq<Entry>, table: seq<HandedEntry>, live0: seq<Entry>,
      loads: seq<Load>, frames: map<nat, nat>)
    requires WellFormed(live) && Exported(live, block, live', table) && AllPages(loads) && SegmentsHeld(live, loads)
    requires PageDb.ArrayFrames(live0, live, frames)
    ensures ToldAbout(table, loads, frames)
  {
    hide Ledger, Told, Tidy, Holds;
    forall i, a: nat | 0 <= i < |loads| && loads[i].block <= a < loads[i].block + loads[i].Length() ensures Told(table,
        a) == [Reclaimable] {
      HeldAt(live, loads[i].block, loads[i].block + loads[i].Length(), Allocated, a);
      assert AllHanded([Allocated]) == [Reclaimable];
    }
    forall n, a: nat | n in frames && frames[n] <= a < frames[n] + PAGE ensures Told(table, a) == [InUse] {
      assert PageDb.UsedPage(live, frames[n]);
      NotInBlock(live, block, live', a);
      assert AllHanded([Used]) == [InUse];
    }
  }

  /** The table's own block was free. */
  lemma NotInBlock(live: seq<Entry>, block: Block, live': seq<Entry>, a: nat)
    requires Ledger(live, [block], live') && Cover(live, a) != [Free]
    ensures !block.Has(a) && Cover(live', a) == Cover(live, a)
  {
    hide Backed, Separate;
    assert [block][0] == block;
    assert Outside([block], a);
  }

  /** The block lies in no segment, in no page of the page database, and in no table. */
  ghost predicate Elsewhere(block: Block, pages: set<nat>, loads: seq<Load>, frames: map<nat, nat>)
    requires AllPages(loads)
  {
    && (forall i, a: nat :: 0 <= i < |loads| && loads[i].block <= a < loads[i].block + loads[i].Length() ==>
        !block.Has(a))
    && (forall n, a: nat :: n in frames && frames[n] <= a < frames[n] + PAGE ==> !block.Has(a))
    && (forall p, a: nat :: p in pages && p <= a < p + PAGE ==> !block.Has(a))
  }

  lemma TableElsewhere(live: seq<Entry>, block: Block, live': seq<Entry>, t: Tree, loads: seq<Load>, live0: seq<Entry>,
      frames: map<nat, nat>)
    requires WellFormed(live) && Ledger(live, [block], live') && Housed(live, t, FRAME_LIMIT)
    requires AllPages(loads) && SegmentsHeld(live, loads) && PageDb.ArrayFrames(live0, live, frames)
    ensures Elsewhere(block, t.slots.Keys, loads, frames) && Housed(live', t, FRAME_LIMIT)
  {
    hide Ledger, Holds, Tidy;
    forall i, a: nat | 0 <= i < |loads| && loads[i].block <= a < loads[i].block + loads[i].Length()
      ensures !block.Has(a)
    {
      HeldAt(live, loads[i].block, loads[i].block + loads[i].Length(), Allocated, a);
      NotInBlock(live, block, live', a);
    }
    forall n, a: nat | n in frames && frames[n] <= a < frames[n] + PAGE ensures !block.Has(a) {
      assert PageDb.UsedPage(live, frames[n]);
      NotInBlock(live, block, live', a);
    }
    forall p, a: nat | p in t.slots && p <= a < p + PAGE ensures !block.Has(a) && Cover(live', a) == [Allocated] {
      assert Owned(live, p);
      NotInBlock(live, block, live', a);
    }
    forall a: nat | Cover(live', a) != [] ensures a < FRAME_LIMIT {
      if Cover(live, a) != [Free] {
        NotInBlock(live, block, live', a);
      }
    }
  }

  /** The memory map is exported after everything else has been claimed, and into none of it. */
  method HandOver(ptm: Ptm, ghost loads: seq<Load>, ghost frames: map<nat, nat>, ghost live0: seq<Entry>)
    returns (ok: bool, block: Block, count: nat, table: array<HandedEntry>)
    requires ptm.Valid() && Backing(ptm.pmm.Live(), ptm.tree.slots.Keys, loads)
        && PageDb.ArrayFrames(live0, ptm.pmm.Live(), frames)
    modifies ptm.pmm, ptm.pmm.slots
    ensures ok ==>
        ptm.Valid() && count <= table.Length && Exported(old(ptm.pmm.Live()), block, ptm.pmm.Live(), table[..count])
    ensures ok ==> ToldAbout(table[..count], loads, frames)
    ensures ok ==> Elsewhere(block, ptm.tree.slots.Keys, loads, frames)
  {
    hide Pmm.Valid, Exported, Backing, SegmentsHeld, PageDb.ArrayFrames, ToldAbout, Elsewhere, Shape, Encoded, Housed,
        Tidy, AllPages, Ledger;
    ptm.Manager();
    ghost var live := ptm.pmm.Live();
    SegmentsBacked(live, ptm.tree.slots.Keys, loads);
    HousedBelow(live, ptm.tree, FRAME_LIMIT);
    BelowAdmissible(live, FRAME_LIMIT);
    ok, block, count, table := ExportMemoryMap(ptm.pmm);
    if ok {
      ExportedLedger(live, block, ptm.pmm.Live(), table[..count]);
      TableTells(live, block, ptm.pmm.Live(), table[..count], live0, loads, frames);
      TableElsewhere(live, block, ptm.pmm.Live(), ptm.tree, loads, live0, frames);
    }
  }

  lemma ExportedLedger(live: seq<Entry>, block: Block, live': seq<Entry>, table: seq<HandedEntry>)
    requires Exported(live, block, live', table)
    ensures Ledger(live, [block], live')
  {
  }

  lemma BelowAdmissible(live: seq<Entry>, limit: nat)
    requires Below(live, limit) && limit + PAGE <= ADDRESS_LIMIT
    ensures Admissible(Claim(0, PAGE, Allocated), live)
  {
  }
}
