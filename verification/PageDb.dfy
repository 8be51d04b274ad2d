/** The page database: an array with a record for every page frame, of which only the parts
    that belong to described memory get pages of their own. */
module PageDb {
  import opened Options
  import opened Arith
  import opened MemoryMap
  import opened MapUpdate
  import opened Allocation
  import opened SlotTrace
  import opened Pmm
  import opened Frames
  import opened PageTree
  import opened TableMemory
  import opened Hhdm
  import opened Paging
  import opened X86Words
  import opened X86Ptm

  // ---------------------------------------------------------------- which pages an entry needs

  /** The first page of the array with records of the entry's frames in it. */
  function First(e: Entry, size: nat): nat { e.base / PAGE * size / PAGE }

  /** One past the last such page. */
  function Past(e: Entry, size: nat): nat { (e.End() / PAGE * size + PAGE - 1) / PAGE }

  /** Pages of the array for all frames up to `limit`. */
  function ArrayPages(limit: nat, size: nat): nat { (Ceil(limit, PAGE) / PAGE * size + PAGE - 1) / PAGE }

  lemma DivMono(a: nat, b: nat)
    requires a <= b
    ensures a / PAGE <= b / PAGE
  {
  }

  /** The record of a frame inside the entry lies in the entry's pages. */
  lemma RecordInside(e: Entry, size: nat, frame: nat, b: nat)
    requires e.base <= frame * PAGE && (frame + 1) * PAGE <= e.End()
    requires frame * size <= b < (frame + 1) * size
    ensures First(e, size) <= b / PAGE < Past(e, size)
  {
    var lo, hi := e.base / PAGE, e.End() / PAGE;
    assert lo <= frame && frame + 1 <= hi;
    MulMono(lo, frame, size);
    MulMono(frame + 1, hi, size);
    DivMono(lo * size, b);
    assert b + 1 <= hi * size;
    CeilAbove(b, hi * size);
  }

  lemma CeilAbove(b: nat, x: nat)
    requires b < x
    ensures b / PAGE < (x + PAGE - 1) / PAGE
  {
  }

  /** Entries in map order need pages in the same order, and share at most one page. */
  lemma PagesInOrder(e: Entry, f: Entry, size: nat)
    requires e.End() <= f.base
    ensures Past(e, size) <= First(f, size) + 1
  {
    var hi, lo := e.End() / PAGE, f.base / PAGE;
    MulMono(hi, lo, size);
    DivMono(hi * size, lo * size);
    AtMostOneMore(hi * size);
  }

  lemma AtMostOneMore(x: nat)
    ensures (x + PAGE - 1) / PAGE <= x / PAGE + 1
  {
  }

  lemma PastWithin(e: Entry, size: nat, limit: nat)
    requires e.End() <= limit
    ensures Past(e, size) <= ArrayPages(limit, size)
  {
    CeilLeast(limit, PAGE);
    DivMono(e.End(), Ceil(limit, PAGE));
    MulMono(e.End() / PAGE, Ceil(limit, PAGE) / PAGE, size);
    DivMono(e.End() / PAGE * size + PAGE - 1, Ceil(limit, PAGE) / PAGE * size + PAGE - 1);
  }

  /** More memory takes no smaller an array. */
  lemma ArrayMono(limit: nat, larger: nat, size: nat)
    requires limit <= larger
    ensures ArrayPages(limit, size) <= ArrayPages(larger, size)
  {
    DivMono(limit + PAGE - 1, larger + PAGE - 1);
    var p, q := (limit + PAGE - 1) / PAGE, (larger + PAGE - 1) / PAGE;
    assert Ceil(limit, PAGE) / PAGE == p && Ceil(larger, PAGE) / PAGE == q;
    MulMono(p, q, size);
    DivMono(p * size + PAGE - 1, q * size + PAGE - 1);
  }

  // ---------------------------------------------------------------- what is mapped

  /** What `x` translates to when page `n` of the array at `base` is in frame `frames[n]`. */
  ghost function ArrayAt(t0: Tree, base: nat, frames: map<nat, nat>, g: Grant, x: nat): Option<Hit> {
    var d := Distance(x, base, Span(t0.depth + 1));
    if d / PAGE in frames then Some(Hit(frames[d / PAGE] + d % PAGE, g)) else Translate(t0, x)
  }

  ghost predicate ArrayMapped(t0: Tree, t: Tree, base: nat, frames: map<nat, nat>, g: Grant) {
    t.depth == t0.depth && forall x: nat :: Translate(t, x) == ArrayAt(t0, base, frames, g, x)
  }

  lemma PageOffset(d: nat, n: nat)
    ensures d / PAGE == n <==> n * PAGE <= d < n * PAGE + PAGE
    ensures d / PAGE == n ==> d % PAGE == d - n * PAGE
  {
  }

  lemma ArrayNext(t0: Tree, t: Tree, t': Tree, base: nat, frames: map<nat, nat>, g: Grant, n: nat, f: nat)
    requires ArrayMapped(t0, t, base, frames, g) && f + PAGE <= FRAME_LIMIT && (n + 1) * PAGE <= Span(t0.depth + 1)
    requires MapsRange(t, t', base + n * PAGE, f, PAGE, FRAME_LIMIT, g)
    ensures ArrayMapped(t0, t', base, frames[n := f], g)
  {
    hide Translate, Distance, Span;
    var w := Span(t0.depth + 1);
    forall x: nat ensures Translate(t', x) == ArrayAt(t0, base, frames[n := f], g, x) {
      var d := Distance(x, base, w);
      DistanceShift(x, base, base + n * PAGE, n * PAGE, w);
      PageOffset(d, n);
      assert Translate(t, x) == ArrayAt(t0, base, frames, g, x);
      assert Translate(t', x) == Mapped(t, base + n * PAGE, f, PAGE, FRAME_LIMIT, g, x);
      if d / PAGE == n {
        ModUnique(f + (d - n * PAGE), FRAME_LIMIT, 0, f + (d - n * PAGE));
      }
    }
  }

  lemma NoArray(t: Tree, base: nat, g: Grant)
    ensures ArrayMapped(t, t, base, map[], g)
  {
  }

  // ---------------------------------------------------------------- where it lives

  /** The array's frames were free in `live0`, are in use now, and are all different. */
  ghost predicate ArrayFrames(live0: seq<Entry>, live: seq<Entry>, frames: map<nat, nat>) {
    && (forall n :: n in frames ==> FreePage(live0, frames[n]) && UsedPage(live, frames[n]))
    && (forall n, m :: n in frames && m in frames && n != m ==>
        frames[n] + PAGE <= frames[m] || frames[m] + PAGE <= frames[n])
  }

  ghost predicate UsedPage(live: seq<Entry>, p: nat) { Holds(live, p, p + PAGE, Used)
      && forall a: nat :: p <= a < p + PAGE ==> Cover(live, a) == [Used] }

  lemma FramesKept(live0: seq<Entry>, live: seq<Entry>, frames: map<nat, nat>, live': seq<Entry>)
    requires ArrayFrames(live0, live, frames) && Kept(live, live')
    ensures ArrayFrames(live0, live', frames)
  {
  }

  lemma FramesNext(live0: seq<Entry>, live: seq<Entry>, frames: map<nat, nat>, n: nat, f: nat, live': seq<Entry>)
    requires ArrayFrames(live0, live, frames) && Claimed(live, f, PAGE, Used, live') && n !in frames
        && Kept(live0, live)
    ensures ArrayFrames(live0, live', frames[n := f])
  {
    hide Holds;
    FramesKept(live0, live, frames, live');
    forall m | m in frames ensures frames[m] + PAGE <= f || f + PAGE <= frames[m] {
      assert UsedPage(live, frames[m]);
      PageApart(live, frames[m], f, PAGE, [Used], [Free]);
    }
    forall a: nat | f <= a < f + PAGE ensures Cover(live0, a) == [Free] {
      assert Cover(live, a) == [Free];
    }
  }

  // ---------------------------------------------------------------- the sweep over the entries

  /** All pages that the first `n` of the entries need have been mapped. */
  ghost predicate Supplied(entries: seq<Entry>, n: nat, size: nat, frames: map<nat, nat>)
    requires n <= |entries|
  {
    forall i, k: nat ::
      0 <= i < n && entries[i].kind != Bad && First(entries[i], size) <= k < Past(entries[i], size) ==> k in frames
  }

  /** Every page is one that some of the first `n` of the entries needs, and that is not bad. */
  ghost predicate Wanting(entries: seq<Entry>, n: nat, size: nat, frames: map<nat, nat>)
    requires n <= |entries|
  {
    forall k :: k in frames ==> WantedBy(entries, n, size, k)
  }

  ghost predicate WantedBy(entries: seq<Entry>, n: nat, size: nat, k: nat)
    requires n <= |entries|
  {
    exists i :: 0 <= i < n && entries[i].kind != Bad && First(entries[i], size) <= k < Past(entries[i], size)
  }

  lemma WantingNext(entries: seq<Entry>, n: nat, size: nat, frames: map<nat, nat>, lo: nat, hi: nat,
      frames': map<nat, nat>)
    requires n < |entries| && Wanting(entries, n, size, frames) && entries[n].kind != Bad
    requires First(entries[n], size) <= lo && hi == Past(entries[n], size)
    requires if lo < hi then Extended(frames, lo, hi, frames') else frames' == frames
    ensures Wanting(entries, n + 1, size, frames')
  {
    hide First, Past;
    forall k | k in frames' ensures WantedBy(entries, n + 1, size, k) {
      if k !in frames {
        assert lo <= k < hi;
      }
    }
  }

  lemma WantingSkip(entries: seq<Entry>, n: nat, size: nat, frames: map<nat, nat>)
    requires n < |entries| && Wanting(entries, n, size, frames)
    ensures Wanting(entries, n + 1, size, frames)
  {
    hide First, Past;
    forall k | k in frames ensures WantedBy(entries, n + 1, size, k) {
      assert WantedBy(entries, n, size, k);
    }
  }

  /** A page of the array has room for records of an entry that is not bad: one of good memory,
      or one that a dead slot held. */
  ghost predicate PageFor(live: seq<Entry>, dead: seq<Entry>, size: nat, k: nat) {
    exists e :: (Good(live, e) || (e in dead && e.kind != Bad)) && First(e, size) <= k < Past(e, size)
  }

  ghost predicate PagesFor(live: seq<Entry>, dead: seq<Entry>, size: nat, frames: map<nat, nat>) {
    forall k :: k in frames ==> PageFor(live, dead, size, k)
  }

  lemma WantedFor(entries: seq<Entry>, live: seq<Entry>, dead: seq<Entry>, size: nat, frames: map<nat, nat>)
    requires Wanting(entries, |entries|, size, frames) && Sources(entries, live, dead)
    ensures PagesFor(live, dead, size, frames)
  {
    hide First, Past, Good;
    forall k | k in frames ensures PageFor(live, dead, size, k) {
      assert WantedBy(entries, |entries|, size, k);
      var i :| 0 <= i < |entries| && entries[i].kind != Bad && First(entries[i], size) <= k < Past(entries[i], size);
      assert entries[i] in entries;
    }
  }

  /** Where no dead slot of another kind describes bad memory, all pages are for good memory. */
  lemma PagesForGood(live: seq<Entry>, dead: seq<Entry>, size: nat, frames: map<nat, nat>)
    requires PagesFor(live, dead, size, frames) && NoneSpoilt(live, dead) && Lingering(dead, live, iset{})
    ensures PagesFor(live, [], size, frames)
  {
    hide First, Past, Good, NoneSpoilt, Lingering;
    forall k | k in frames ensures PageFor(live, [], size, k) {
      assert PageFor(live, dead, size, k);
      var e :| (Good(live, e) || (e in dead && e.kind != Bad)) && First(e, size) <= k < Past(e, size);
      if !Good(live, e) {
        NothingForUnused(size, e, k);
        DeadGood(live, dead, e);
      }
    }
  }

  lemma NothingForUnused(size: nat, e: Entry, k: nat)
    requires First(e, size) <= k < Past(e, size)
    ensures e != UNUSED
  {
    assert Past(UNUSED, size) == 0;
  }

  lemma DeadGood(live: seq<Entry>, dead: seq<Entry>, e: Entry)
    requires NoneSpoilt(live, dead) && Lingering(dead, live, iset{}) && e in dead && e.kind != Bad && e != UNUSED
    ensures Good(live, e)
  {
  }

  /** Pages are mapped up to `top`, which is as far as one of the first `n` entries reaches. */
  ghost predicate Topped(entries: seq<Entry>, n: nat, size: nat, frames: map<nat, nat>, top: nat)
    requires n <= |entries|
  {
    && (forall k :: k in frames ==> k < top)
    && (top > 0 ==> top - 1 in frames && exists i :: 0 <= i < n && top == Past(entries[i], size))
  }

  /** Frames for the pages from `lo` to `hi` have been added. */
  ghost predicate Extended(frames: map<nat, nat>, lo: nat, hi: nat, frames': map<nat, nat>) {
    forall k :: k in frames' <==> k in frames || lo <= k < hi
  }

  ghost predicate InOrder(entries: seq<Entry>) {
    forall i, j :: 0 <= i < j < |entries| ==> entries[i].End() <= entries[j].base
  }

  /** One entry of the sweep: what lies below the top is there already. */
  lemma SupplyNext(entries: seq<Entry>, live: nat, n: nat, size: nat, frames: map<nat, nat>, top: nat, lo: nat, hi: nat,
      frames': map<nat, nat>)
    requires n < |entries| && live <= |entries| && InOrder(entries[..live])
    requires Topped(entries, n, size, frames, top) && (n <= live ==> Supplied(entries, n, size, frames))
    requires live < n ==> Supplied(entries, live, size, frames)
    requires hi == Past(entries[n], size) && lo == if First(entries[n], size) < top then top
        else First(entries[n], size)
    requires if lo < hi then Extended(frames, lo, hi, frames') else frames' == frames
    ensures Topped(entries, n + 1, size, frames', if lo < hi then hi else top)
    ensures if n < live then Supplied(entries, n + 1, size, frames') else Supplied(entries, live, size, frames')
  {
    hide First, Past, InOrder, Supplied;
    if lo < hi {
      assert hi - 1 in frames';
    }
    if n < live {
      NotBelowTop(entries, live, n, size, frames, top);
      SuppliedMore(entries, n, size, frames, top, lo, hi, frames');
    } else {
      SuppliedStill(entries, live, size, frames, frames');
    }
  }

  lemma NotBelowTop(entries: seq<Entry>, live: nat, n: nat, size: nat, frames: map<nat, nat>, top: nat)
    requires n < live <= |entries| && InOrder(entries[..live]) && Topped(entries, n, size, frames, top)
    ensures First(entries[n], size) < top ==> First(entries[n], size) == top - 1 && top - 1 in frames
  {
    hide First, Past;
    if First(entries[n], size) < top {
      var i :| 0 <= i < n && top == Past(entries[i], size);
      assert entries[..live][i] == entries[i] && entries[..live][n] == entries[n];
      PagesInOrder(entries[i], entries[n], size);
    }
  }

  lemma SuppliedMore(entries: seq<Entry>, n: nat, size: nat, frames: map<nat, nat>, top: nat, lo: nat, hi: nat,
      frames': map<nat, nat>)
    requires n < |entries| && Supplied(entries, n, size, frames)
    requires First(entries[n], size) < top ==> First(entries[n], size) == top - 1 && top - 1 in frames
    requires hi == Past(entries[n], size) && lo == if First(entries[n], size) < top then top
        else First(entries[n], size)
    requires if lo < hi then Extended(frames, lo, hi, frames') else frames' == frames
    ensures Supplied(entries, n + 1, size, frames')
  {
    hide First, Past;
  }

  lemma SuppliedStill(entries: seq<Entry>, n: nat, size: nat, frames: map<nat, nat>, frames': map<nat, nat>)
    requires n <= |entries| && Supplied(entries, n, size, frames) && forall k :: k in frames ==> k in frames'
    ensures Supplied(entries, n, size, frames')
  {
    hide First, Past;
  }

  lemma SupplySkip(entries: seq<Entry>, live: nat, n: nat, size: nat, frames: map<nat, nat>, top: nat)
    requires n < |entries| && live <= |entries| && entries[n].kind == Bad
    requires Topped(entries, n, size, frames, top) && (n <= live ==> Supplied(entries, n, size, frames))
    requires live < n ==> Supplied(entries, live, size, frames)
    ensures Topped(entries, n + 1, size, frames, top)
    ensures if n < live then Supplied(entries, n + 1, size, frames) else Supplied(entries, live, size, frames)
  {
  }

  // ---------------------------------------------------------------- what the kernel gets

  /** The page at `p` lies in one entry, and that is not bad memory. */
  ghost predicate GoodPage(live: seq<Entry>, p: nat) { exists k :: k != Bad && PageHeld(live, p, k) }

  ghost predicate PageHeld(live: seq<Entry>, p: nat, k: Kind) { Holds(live, p, p + PAGE, k) }

  /** Byte `b` of the array belongs to the record of the frame. */
  ghost predicate InRecord(frame: nat, size: nat, b: nat) { frame * size <= b < (frame + 1) * size }

  /** The record of every good page frame has its pages. */
  ghost predicate RecordsMapped(live: seq<Entry>, size: nat, frames: map<nat, nat>) {
    forall frame: nat, b: nat :: GoodPage(live, frame * PAGE) && InRecord(frame, size, b) ==> b / PAGE in frames
  }

  lemma RecordsSupplied(live: seq<Entry>, entries: seq<Entry>, size: nat, frames: map<nat, nat>)
    requires |live| <= |entries| && entries[..|live|] == live && Supplied(entries, |live|, size, frames)
    ensures RecordsMapped(live, size, frames)
  {
    hide First, Past;
    forall frame: nat, b: nat | GoodPage(live, frame * PAGE) && InRecord(frame, size, b) ensures b / PAGE in frames {
      var k :| k != Bad && PageHeld(live, frame * PAGE, k);
      var e :| e in live && e.kind == k && e.base <= frame * PAGE && (frame + 1) * PAGE <= e.End();
      var i :| 0 <= i < |live| && live[i] == e;
      assert entries[..|live|][i] == entries[i];
      RecordInside(e, size, frame, b);
    }
  }

  /** Claiming a block of whole pages leaves every frame in one entry. */
  lemma RecordsBefore(live: seq<Entry>, c: nat, bytes: nat, live1: seq<Entry>, size: nat, frames: map<nat, nat>)
    requires RecordsMapped(live1, size, frames) && c % PAGE == 0 && bytes % PAGE == 0
    requires KeepsBlocks(live, Request(c, bytes, Allocated, true), live1) && Holds(live1, c, c + bytes, Allocated)
    ensures RecordsMapped(live, size, frames)
  {
    forall frame: nat, b: nat | GoodPage(live, frame * PAGE) && InRecord(frame, size, b) ensures b / PAGE in frames {
      var k :| k != Bad && PageHeld(live, frame * PAGE, k);
      WholeFrame(frame, c, bytes);
      if c <= frame * PAGE && (frame + 1) * PAGE <= c + bytes {
        assert PageHeld(live1, frame * PAGE, Allocated);
      } else {
        assert PageHeld(live1, frame * PAGE, k);
      }
    }
  }

  lemma WholeFrame(frame: nat, c: nat, bytes: nat)
    requires c % PAGE == 0 && bytes % PAGE == 0
    ensures (frame + 1) * PAGE <= c || c + bytes <= frame * PAGE
        || (c <= frame * PAGE && (frame + 1) * PAGE <= c + bytes)
  {
  }

  lemma FramesBefore(live: seq<Entry>, c: nat, bytes: nat, live1: seq<Entry>, live2: seq<Entry>, frames: map<nat, nat>)
    requires ArrayFrames(live1, live2, frames) && Claimed(live, c, bytes, Allocated, live1)
    ensures ArrayFrames(live, live2, frames)
  {
    forall n | n in frames ensures FreePage(live, frames[n]) {
      assert FreePage(live1, frames[n]);
      forall a: nat | frames[n] <= a < frames[n] + PAGE ensures Cover(live, a) == [Free] {
        assert Cover(live1, a) == [Free];
      }
    }
  }

  /** Releasing the snapshot's block takes nothing from the array. */
  lemma FramesReleased(live0: seq<Entry>, live: seq<Entry>, frames: map<nat, nat>, c: nat, bytes: nat,
      live': seq<Entry>)
    requires ArrayFrames(live0, live, frames) && WellFormed(live) && Holds(live, c, c + bytes, Allocated) && bytes > 0
    requires Effect(live, Request(c, bytes, Free, true), live') && Fits(live, Request(c, bytes, Free, true))
    ensures ArrayFrames(live0, live', frames)
  {
    hide Holds, Tidy, Room, Fits;
    forall n | n in frames ensures UsedPage(live', frames[n]) {
      var p := frames[n];
      assert UsedPage(live, p);
      forall a: nat | c <= a < c + bytes ensures Cover(live, a) == [Allocated] {
        HeldAt(live, c, c + bytes, Allocated, a);
      }
      PageApart(live, p, c, bytes, [Used], [Allocated]);
      forall a: nat | p <= a < p + PAGE ensures Cover(live', a) == [Used] {
        assert Cover(live', a) == Want(Request(c, bytes, Free, true), a, Cover(live, a));
      }
    }
  }

  /** The byte `b` of the array, if its page is mapped, is found at `base + b`. */
  lemma ByteMapped(t0: Tree, t: Tree, base: nat, frames: map<nat, nat>, g: Grant, b: nat)
    requires ArrayMapped(t0, t, base, frames, g) && b < Span(t0.depth + 1) && b / PAGE in frames
    ensures Translate(t, base + b) == Some(Hit(frames[b / PAGE] + b % PAGE, g))
  {
    hide Translate, Span, Distance;
    DistanceForward(base, b, Span(t0.depth + 1));
    assert Translate(t, base + b) == ArrayAt(t0, base, frames, g, base + b);
  }

  lemma ClaimedGrown(live: seq<Entry>, c: nat, length: nat, k: Kind, live': seq<Entry>, pages: set<nat>)
    requires Claimed(live, c, length, k, live')
    ensures Grown(live, pages, live', pages)
  {
  }

  /** The state of the builder while the array is being mapped. */
  ghost predicate Building(ptm: Ptm, t0: Tree, pages0: set<nat>, live0: seq<Entry>, base: nat, frames: map<nat, nat>)
    reads ptm, ptm.pmm, ptm.pmm.slots
  {
    && ptm.Valid() && ptm.levelCount == t0.depth
    && ArrayMapped(t0, ptm.tree, base, frames, Wanted(true, ptm.nxSupport))
    && ArrayFrames(live0, ptm.pmm.Live(), frames)
    && Grown(live0, pages0, ptm.pmm.Live(), ptm.tree.slots.Keys)
  }

  /** One page of the array; not `ok` when the memory manager or the builder fails. */
  method SupplyPage(ptm: Ptm, address: nat, ghost t0: Tree, ghost pages0: set<nat>, ghost live0: seq<Entry>,
      ghost base: nat, ghost n: nat, ghost frames: map<nat, nat>)
    returns (ok: bool, ghost frames': map<nat, nat>)
    requires Building(ptm, t0, pages0, live0, base, frames) && n !in frames
    requires address == base + n * PAGE && address < ADDRESS_LIMIT && (n + 1) * PAGE <= Span(t0.depth + 1)
    modifies ptm`memory, ptm`tree, ptm.pmm, ptm.pmm.slots
    ensures ok ==> Building(ptm, t0, pages0, live0, base, frames') && Extended(frames, n, n + 1, frames')
    ensures !ok ==> base % PAGE != 0 || ptm.Stuck()
  {
    hide Ptm.Valid, Shape, Encoded, Claimed, Effect, Fits, LowestFit, CanHold, Tidy, ArrayMapped, ArrayFrames, Grown,
        Kept, Drawn, MapsRange, Remapped, Span, Traced, NoneSpoilt, ReachesPast, Need;
    ptm.Manager();
    ghost var live := ptm.pmm.Live();
    BelowAlignment(live, FRAME_LIMIT);
    var r := ptm.pmm.AllocExt(1, PAGE, Used);
    if !r.Address? {
      return false, map[];
    }
    ghost var live1, t := ptm.pmm.Live(), ptm.tree;
    PageClaimed(live0, pages0, live, t, frames, n, r.address, live1);
    ok := MapOnto(ptm, address, r.address);
    if !ok {
      if base % PAGE == 0 {
        PageAligned(base, n);
      }
      return false, map[];
    }
    frames' := frames[n := r.address];
    DrawnGrown(live1, t.slots.Keys, ptm.pmm.Live(), ptm.tree.slots.Keys);
    GrownTwice(live0, pages0, live1, t.slots.Keys, ptm.pmm.Live(), ptm.tree.slots.Keys);
    GrownKept(live1, t.slots.Keys, ptm.pmm.Live(), ptm.tree.slots.Keys);
    FramesKept(live0, live1, frames', ptm.pmm.Live());
    ArrayNext(t0, t, ptm.tree, base, frames, Wanted(true, ptm.nxSupport), n, r.address);
  }

  /** A page claimed for the array while it is being mapped. */
  lemma PageClaimed(live0: seq<Entry>, pages0: set<nat>, live: seq<Entry>, t: Tree, frames: map<nat, nat>, n: nat,
      f: nat, live1: seq<Entry>)
    requires WellFormed(live) && Housed(live, t, FRAME_LIMIT) && LowestFit(live, 1 * PAGE, PAGE, f)
    requires Effect(live, Request(f, 1 * PAGE, Used, true), live1) && Fits(live, Request(f, 1 * PAGE, Used, true))
    requires ArrayFrames(live0, live, frames) && Grown(live0, pages0, live, t.slots.Keys) && n !in frames
    ensures Housed(live1, t, FRAME_LIMIT) && f + PAGE <= FRAME_LIMIT && f % PAGE == 0
    ensures ArrayFrames(live0, live1, frames[n := f]) && Grown(live0, pages0, live1, t.slots.Keys)
  {
    hide Effect, Fits, LowestFit, CanHold, Tidy, ArrayFrames, Grown, Claimed, Housed;
    LowestHolds(live, PAGE, PAGE, f);
    BlockClaimed(live, f, PAGE, Used, live1);
    ClaimedHoused(live, t, f, PAGE, Used, live1, FRAME_LIMIT);
    ClaimedGrown(live, f, PAGE, Used, live1, t.slots.Keys);
    GrownTwice(live0, pages0, live, t.slots.Keys, live1, t.slots.Keys);
    GrownKept(live0, pages0, live, t.slots.Keys);
    FramesNext(live0, live, frames, n, f, live1);
  }

  lemma PageAligned(base: nat, n: nat)
    requires base % PAGE == 0
    ensures (base + n * PAGE) % PAGE == 0
  {
  }

  method MapOnto(ptm: Ptm, address: nat, frame: nat) returns (ok: bool)
    requires ptm.pmm.Valid() && Shape(ptm.tree) && Encoded(ptm.memory, ptm.tree, X86(ptm.cpu))
        && Housed(ptm.pmm.Live(), ptm.tree, FRAME_LIMIT)
    requires ptm.tree.root == ptm.root && ptm.tree.depth == ptm.levelCount && 4 <= ptm.levelCount <= 5
    requires address < ADDRESS_LIMIT && frame < FRAME_LIMIT && frame % PAGE == 0
    modifies ptm`memory, ptm`tree, ptm.pmm, ptm.pmm.slots
    ensures ok ==> ptm.Valid() && ptm.tree.depth == old(ptm.tree).depth
    ensures ok ==> MapsRange(old(ptm.tree), ptm.tree, address, frame, PAGE, FRAME_LIMIT, Wanted(true, ptm.nxSupport))
    ensures ok ==> Drawn(old(ptm.pmm.Live()), old(ptm.tree.slots.Keys), ptm.pmm.Live(), ptm.tree.slots.Keys)
    ensures !ok ==> address % PAGE != 0 || ptm.Stuck()
  {
    hide Shape, Encoded, Housed, Pmm.Valid, Drawn, Remapped, Span, Pmm.Exhausted, ObstructedIn, ObstructedSomewhere;
    OnePage(ptm.levelCount);
    ok := ptm.Map(address, frame, PAGE, true, false);
    if !ok && ObstructedIn(ptm.tree, address, PAGE) {
      ObstructedAnywhere(ptm.tree, address, PAGE);
    }
  }

  /** The pages of the array from `lo` to `hi`. */
  method SupplyRange(ptm: Ptm, start: nat, stop: nat, ghost t0: Tree, ghost pages0: set<nat>, ghost live0: seq<Entry>,
      ghost base: nat, ghost lo: nat, ghost hi: nat, ghost frames: map<nat, nat>)
    returns (ok: bool, ghost frames': map<nat, nat>)
    requires Building(ptm, t0, pages0, live0, base, frames) && lo <= hi && (forall k :: k in frames ==> k < lo)
    requires start == base + lo * PAGE && stop == base + hi * PAGE && stop <= ADDRESS_LIMIT
        && hi * PAGE <= Span(t0.depth + 1)
    modifies ptm`memory, ptm`tree, ptm.pmm, ptm.pmm.slots
    ensures ok ==> Building(ptm, t0, pages0, live0, base, frames') && Extended(frames, lo, hi, frames')
    ensures !ok ==> base % PAGE != 0 || ptm.Stuck()
  {
    hide Building, Span;
    frames' := frames;
    ghost var n := lo;
    var address := start;
    while address < stop
      invariant lo <= n <= hi && address == base + n * PAGE
      invariant Building(ptm, t0, pages0, live0, base, frames') && Extended(frames, lo, n, frames')
      decreases stop - address
    {
      ok, frames' := SupplyPage(ptm, address, t0, pages0, live0, base, n, frames');
      if !ok { return; }
      n := n + 1;
      address := address + PAGE;
    }
    return true, frames';
  }

  /** The array's pages for one entry, as far as they are not there yet. */
  method SupplyEntry(ptm: Ptm, entry: Entry, size: nat, base: nat, mappedEnd: nat, ghost t0: Tree,
      ghost pages0: set<nat>, ghost live0: seq<Entry>, ghost top: nat, ghost frames: map<nat, nat>)
    returns (ok: bool, mappedEnd': nat, ghost frames': map<nat, nat>)
    requires Building(ptm, t0, pages0, live0, base, frames) && (forall k :: k in frames ==> k < top)
    requires mappedEnd == base + top * PAGE
    requires base + Past(entry, size) * PAGE <= ADDRESS_LIMIT && Past(entry, size) * PAGE <= Span(t0.depth + 1)
    modifies ptm`memory, ptm`tree, ptm.pmm, ptm.pmm.slots
    ensures ok ==> Building(ptm, t0, pages0, live0, base, frames')
    ensures ok ==>
      var lo, hi := if First(entry, size) < top then top else First(entry, size), Past(entry, size);
      if lo < hi then Extended(frames, lo, hi, frames') && mappedEnd' == base + hi * PAGE
          else frames' == frames && mappedEnd' == mappedEnd
    ensures !ok ==> base % PAGE != 0 || ptm.Stuck()
  {
    hide Building, Span;
    var start := base + entry.base / PAGE * size / PAGE * PAGE;
    var stop := base + Ceil(entry.End() / PAGE * size, PAGE);
    ghost var lo, hi := if First(entry, size) < top then top else First(entry, size), Past(entry, size);
    assert stop == base + hi * PAGE;
    if start < mappedEnd {
      start := mappedEnd;
    }
    assert start == base + lo * PAGE;
    if start >= stop {
      return true, mappedEnd, frames;
    }
    ok, frames' := SupplyRange(ptm, start, stop, t0, pages0, live0, base, lo, hi, frames);
    mappedEnd' := stop;
  }

  /** Where a sweep over the snapshot's entries stands. */
  ghost predicate Standing(entries: seq<Entry>, live: nat, i: nat, size: nat, frames: map<nat, nat>, top: nat)
    requires i <= |entries| && live <= |entries|
  {
    && Topped(entries, i, size, frames, top) && Supplied(entries, if i < live then i else live, size, frames)
    && Wanting(entries, i, size, frames)
  }

  lemma StandingStarts(entries: seq<Entry>, live: nat, size: nat)
    requires live <= |entries|
    ensures Standing(entries, live, 0, size, map[], 0)
  {
  }

  lemma StandingNext(entries: seq<Entry>, live: nat, n: nat, size: nat, frames: map<nat, nat>, top: nat,
      frames': map<nat, nat>) returns (top': nat)
    requires n < |entries| && live <= |entries| && InOrder(entries[..live]) && entries[n].kind != Bad
        && Standing(entries, live, n, size, frames, top)
    requires var lo, hi := if First(entries[n], size) < top then top else First(entries[n], size),
        Past(entries[n], size);
             if lo < hi then Extended(frames, lo, hi, frames') else frames' == frames
    ensures Standing(entries, live, n + 1, size, frames', top')
    ensures var lo, hi := if First(entries[n], size) < top then top else First(entries[n], size),
        Past(entries[n], size);
            top' == if lo < hi then hi else top
  {
    var lo, hi := if First(entries[n], size) < top then top else First(entries[n], size), Past(entries[n], size);
    SupplyNext(entries, live, n, size, frames, top, lo, hi, frames');
    WantingNext(entries, n, size, frames, lo, hi, frames');
    top' := if lo < hi then hi else top;
  }

  lemma StandingSkip(entries: seq<Entry>, live: nat, n: nat, size: nat, frames: map<nat, nat>, top: nat)
    requires n < |entries| && live <= |entries| && Standing(entries, live, n, size, frames, top) && entries[n].kind ==
        Bad
    ensures Standing(entries, live, n + 1, size, frames, top)
  {
    SupplySkip(entries, live, n, size, frames, top);
    WantingSkip(entries, n, size, frames);
  }

  /** The loop over the snapshot's entries. */
  method SupplyAll(ptm: Ptm, entries: seq<Entry>, size: nat, base: nat, ghost live: seq<Entry>, ghost limit: nat)
      returns (ok: bool, ghost frames: map<nat, nat>)
    requires ptm.Valid() && ptm.pmm.Live() == live && SnapshotOf(entries, live)
    requires forall j :: 0 <= j < |entries| ==> entries[j].End() <= limit
    requires base + ArrayPages(limit, size) * PAGE <= ADDRESS_LIMIT
        && ArrayPages(limit, size) * PAGE <= Span(ptm.levelCount + 1)
    modifies ptm`memory, ptm`tree, ptm.pmm, ptm.pmm.slots
    ensures ok ==> Building(ptm, old(ptm.tree), old(ptm.tree.slots.Keys), live, base, frames)
    ensures ok ==> RecordsMapped(live, size, frames) && forall n :: n in frames ==> n < ArrayPages(limit, size)
    ensures ok ==> Wanting(entries, |entries|, size, frames)
    ensures !ok ==> base % PAGE != 0 || ptm.Stuck()
  {
    hide Building, Span, Standing, Wanting, First, Past, ArrayPages, RecordsMapped, InOrder, Extended, Ptm.Valid,
        Pmm.Valid, Tidy, Cover;
    ptm.Manager();
    ghost var t0, pages0 := ptm.tree, ptm.tree.slots.Keys;
    ghost var top: nat := 0;
    frames := map[];
    NothingBuilt(ptm, base);
    LiveInOrder(live);
    StandingStarts(entries, |live|, size);
    var mappedEnd := base;
    for i := 0 to |entries|
      invariant Building(ptm, t0, pages0, live, base, frames) && t0.depth == old(ptm.levelCount)
      invariant Standing(entries, |live|, i, size, frames, top) && mappedEnd == base + top * PAGE
    {
      if entries[i].kind == Bad {
        StandingSkip(entries, |live|, i, size, frames, top);
        continue;
      }
      PastWithin(entries[i], size, limit);
      KeysBelow(entries, |live|, i, size, frames, top);
      ghost var frames1 := frames;
      ok, mappedEnd, frames := SupplyEntry(ptm, entries[i], size, base, mappedEnd, t0, pages0, live, top, frames);
      if !ok { return; }
      top := StandingNext(entries, |live|, i, size, frames1, top, frames);
    }
    StandingDone(live, entries, size, frames, top, limit);
    return true, frames;
  }

  lemma NothingBuilt(ptm: Ptm, base: nat)
    requires ptm.Valid()
    ensures Building(ptm, ptm.tree, ptm.tree.slots.Keys, ptm.pmm.Live(), base, map[]) && ptm.tree.depth ==
        ptm.levelCount
  {
    hide Shape, Encoded, Housed, Tidy;
    NoArray(ptm.tree, base, Wanted(true, ptm.nxSupport));
  }

  lemma LiveInOrder(live: seq<Entry>)
    requires WellFormed(live)
    ensures InOrder(live)
  {
  }

  lemma KeysBelow(entries: seq<Entry>, live: nat, i: nat, size: nat, frames: map<nat, nat>, top: nat)
    requires i <= |entries| && live <= |entries| && Standing(entries, live, i, size, frames, top)
    ensures forall k :: k in frames ==> k < top
  {
  }

  lemma StandingDone(live: seq<Entry>, entries: seq<Entry>, size: nat, frames: map<nat, nat>, top: nat, limit: nat)
    requires |live| <= |entries| && entries[..|live|] == live && Standing(entries, |live|, |entries|, size, frames, top)
    requires forall j :: 0 <= j < |entries| ==> entries[j].End() <= limit
    ensures RecordsMapped(live, size, frames) && forall n :: n in frames ==> n < ArrayPages(limit, size)
    ensures Wanting(entries, |entries|, size, frames)
  {
    hide First, Past, ArrayPages, Wanting;
    RecordsSupplied(live, entries, size, frames);
    if top > 0 {
      var i :| 0 <= i < |entries| && top == Past(entries[i], size);
      PastWithin(entries[i], size, limit);
    }
  }

  /** What the kernel is promised: the array lies behind the direct map and below the kernel,
      every page of it that is mapped has a frame of its own that was free, the record of every
      good frame is there, and no other address has changed. */
  ghost predicate Provided(t0: Tree, t: Tree, live0: seq<Entry>, live: seq<Entry>, base: nat, size: nat, limit: nat,
      frames: map<nat, nat>, g: Grant) {
    && ArrayMapped(t0, t, base, frames, g) && ArrayFrames(live0, live, frames)
    && RecordsMapped(live0, size, frames) && forall n :: n in frames ==> n < ArrayPages(limit, size)
  }

  /** The memory map is copied; not `ok` when the memory manager fails, or when the copy runs
      past the end of its array. */
  method ClaimSnapshot(ptm: Ptm, ghost limit: nat) returns (ok: bool, snapshot: Snapshot)
    requires ptm.Valid() && Below(ptm.pmm.Live(), limit)
    modifies ptm.pmm, ptm.pmm.slots
    ensures ok ==> snapshot.Taken? && ptm.Valid() && SnapshotOf(snapshot.entries, ptm.pmm.Live())
    ensures ok ==> Sources(snapshot.entries, old(ptm.pmm.Live()), old(ptm.pmm.Dead()))
    ensures ok ==> Claimed(old(ptm.pmm.Live()), snapshot.phys, snapshot.bytes, Allocated, ptm.pmm.Live())
    ensures ok ==> KeepsBlocks(old(ptm.pmm.Live()), Request(snapshot.phys, snapshot.bytes, Allocated, true),
        ptm.pmm.Live())
    ensures ok ==>
        snapshot.phys % PAGE == 0 && snapshot.bytes % PAGE == 0 && snapshot.bytes > 0
        && snapshot.phys + snapshot.bytes <= FRAME_LIMIT
    ensures ok ==> forall j :: 0 <= j < |snapshot.entries| ==> snapshot.entries[j].End() <= limit
    ensures !ok ==>
      || ptm.pmm.Exhausted(SnapshotPages(old(ptm.pmm.size)))
      || SnapshotRefused(old(ptm.pmm.Live())) || Overruns(old(ptm.pmm.Live()))
  {
    hide Shape, Encoded, Effect, Fits, LowestFit, CanHold, SnapshotOf, Sources, Claimed, Tidy, Lingering, Traced,
        NoneSpoilt;
    ghost var live := ptm.pmm.Live();
    BelowAlignment(live, FRAME_LIMIT);
    snapshot := ptm.pmm.CreateSnapshot();
    if !snapshot.Taken? {
      return false, snapshot;
    }
    ghost var live1, c, bytes := ptm.pmm.Live(), snapshot.phys, snapshot.bytes;
    SnapshotClaimed(live, ptm.tree, FRAME_LIMIT, limit, c, bytes, snapshot.entries, live1);
    EffectKeeps(live, Request(c, bytes, Allocated, true), live1);
    return true, snapshot;
  }

  lemma EffectKeeps(s: seq<Entry>, r: Request, t: seq<Entry>)
    requires Effect(s, r, t)
    ensures KeepsBlocks(s, r, t)
  {
  }

  /** The copy of the memory map is released, and nothing else is. */
  method ReleaseSnapshot(ptm: Ptm, snapshot: Snapshot, ghost t0: Tree, ghost live: seq<Entry>, ghost live1: seq<Entry>,
      ghost base: nat, ghost frames: map<nat, nat>) returns (ok: bool)
    requires Building(ptm, t0, t0.slots.Keys, live1, base, frames) && Housed(live, t0, FRAME_LIMIT)
    requires snapshot.HasBlock() && Claimed(live, snapshot.phys, snapshot.bytes, Allocated, live1)
    requires snapshot.bytes % PAGE == 0 && snapshot.bytes > 0
    requires snapshot.phys + snapshot.bytes <= FRAME_LIMIT && WellFormed(live)
    modifies ptm.pmm, ptm.pmm.slots
    ensures ok ==> ptm.Valid() && ArrayFrames(live1, ptm.pmm.Live(), frames)
    ensures ok ==> Grown(live, t0.slots.Keys, ptm.pmm.Live(), ptm.tree.slots.Keys)
    ensures !ok ==> ptm.pmm.Exhausted(1)
  {
    hide Shape, Encoded, Effect, Fits, Claimed, Tidy, Lingering, Grown, ArrayFrames, ArrayMapped, Holds;
    ghost var live2, c, bytes := ptm.pmm.Live(), snapshot.phys, snapshot.bytes;
    GrownKept(live1, t0.slots.Keys, live2, ptm.tree.slots.Keys);
    ClaimedHolds(live, c, bytes, live1, live2);
    SnapshotReleasable(live, t0.slots.Keys, live1, live2, ptm.tree.slots.Keys, c, bytes);
    var o := ptm.pmm.FreeSnapshot(snapshot);
    ok := o.Settled?;
    if !ok { return; }
    SnapshotReturned(live, t0.slots.Keys, c, bytes, live1, live2, ptm.tree, FRAME_LIMIT, ptm.pmm.Live());
    FramesReleased(live1, live2, frames, c, bytes, ptm.pmm.Live());
  }

  lemma ClaimedHolds(live: seq<Entry>, c: nat, bytes: nat, live1: seq<Entry>, live2: seq<Entry>)
    requires Claimed(live, c, bytes, Allocated, live1) && Kept(live1, live2) && bytes > 0
    ensures Holds(live1, c, c + bytes, Allocated) && Holds(live2, c, c + bytes, Allocated)
  {
  }

  /** What is promised about the map with the snapshot in it holds of the map before. */
  lemma ProvidedBefore(t0: Tree, t: Tree, live: seq<Entry>, c: nat, bytes: nat, live1: seq<Entry>, live2: seq<Entry>,
      base: nat, size: nat, limit: nat, frames: map<nat, nat>, g: Grant)
    requires ArrayMapped(t0, t, base, frames, g) && ArrayFrames(live1, live2, frames)
        && RecordsMapped(live1, size, frames)
    requires (forall n :: n in frames ==> n < ArrayPages(limit, size)) && Claimed(live, c, bytes, Allocated, live1)
    requires KeepsBlocks(live, Request(c, bytes, Allocated, true), live1) && c % PAGE == 0 && bytes % PAGE == 0
        && bytes > 0
    ensures Provided(t0, t, live, live2, base, size, limit, frames, g)
  {
    hide ArrayMapped, ArrayFrames, RecordsMapped, Claimed, KeepsBlocks, ArrayPages;
    FramesBefore(live, c, bytes, live1, live2, frames);
    ClaimedHeld(live, c, bytes, Allocated, live1);
    RecordsBefore(live, c, bytes, live1, size, frames);
  }

  /** `pagedb_setup`; not `ok` when it panics. */
  method Setup(ptm: Ptm, kernelBase: nat, entrySize: nat, hhdmOffset: nat, hhdmSize: nat)
      returns (ok: bool, base: nat, size: nat, ghost frames: map<nat, nat>)
    requires ptm.Valid() && Below(ptm.pmm.Live(), hhdmSize)
    requires hhdmOffset + hhdmSize + PAGE + ArrayPages(hhdmSize, entrySize) * PAGE <= ADDRESS_LIMIT
    requires ArrayPages(hhdmSize, entrySize) * PAGE <= Span(ptm.levelCount + 1)
    modifies ptm`memory, ptm`tree, ptm.pmm, ptm.pmm.slots
    ensures ok ==> ptm.Valid() && base == hhdmOffset + hhdmSize + PAGE && size == ArrayPages(hhdmSize, entrySize) * PAGE
    ensures ok ==> base + size <= kernelBase
    ensures ok ==> Grown(old(ptm.pmm.Live()), old(ptm.tree.slots.Keys), ptm.pmm.Live(), ptm.tree.slots.Keys)
    ensures ok && base % PAGE == 0 ==> base + size <= kernelBase - kernelBase % PAGE
    ensures ok ==> Provided(old(ptm.tree), ptm.tree, old(ptm.pmm.Live()), ptm.pmm.Live(), base, entrySize, hhdmSize,
        frames, Wanted(true, ptm.nxSupport))
    ensures ok ==> PagesFor(old(ptm.pmm.Live()), old(ptm.pmm.Dead()), entrySize, frames)
    ensures ok && old(ptm.pmm.Unspoilt()) ==> PagesFor(old(ptm.pmm.Live()), [], entrySize, frames)
    ensures !ok ==>
      || base + size > kernelBase || base % PAGE != 0 || ptm.Stuck()
      || ptm.pmm.Exhausted(SnapshotPages(old(ptm.pmm.size)))
      || SnapshotRefused(old(ptm.pmm.Live())) || Overruns(old(ptm.pmm.Live()))
  {
    hide Ptm.Valid, Pmm.Valid, Shape, Encoded, Housed, SnapshotOf, Claimed, Span, RecordsMapped, Tidy, ArrayPages,
        ArrayMapped, ArrayFrames, Provided, Grown, KeepsBlocks, Kept, Ceil, Sources, Wanting, PagesFor, NoneSpoilt,
        Lingering;
    ptm.Manager();
    ghost var live, dead, t0 := ptm.pmm.Live(), ptm.pmm.Dead(), ptm.tree;
    ghost var unspoilt := NoneSpoilt(live, dead);
    ManagerLingers(ptm.pmm);
    var systemPageCount := Ceil(hhdmSize, PAGE) / PAGE;
    size := Ceil(systemPageCount * entrySize, PAGE);
    SizeIs(hhdmSize, entrySize);
    base := hhdmOffset + hhdmSize + PAGE;
    if base + size > kernelBase {
      return false, base, size, map[];
    }
    var snapshot;
    ok, snapshot := ClaimSnapshot(ptm, hhdmSize);
    if !ok { return false, base, size, map[]; }
    ghost var live1, c, bytes := ptm.pmm.Live(), snapshot.phys, snapshot.bytes;
    ok, frames := SupplyAll(ptm, snapshot.entries, entrySize, base, live1, hhdmSize);
    if !ok { return; }
    WantedFor(snapshot.entries, live, dead, entrySize, frames);
    if unspoilt {
      PagesForGood(live, dead, entrySize, frames);
    }
    ok := ReleaseSnapshot(ptm, snapshot, t0, live, live1, base, frames);
    if !ok { return; }
    ProvidedBefore(t0, ptm.tree, live, c, bytes, live1, ptm.pmm.Live(), base, entrySize, hhdmSize, frames,
        Wanted(true, ptm.nxSupport));
  }

  lemma ManagerLingers(pmm: Pmm)
    requires pmm.Valid()
    ensures Lingering(pmm.Dead(), pmm.Live(), iset{})
  {
  }

  lemma SizeIs(limit: nat, size: nat)
    ensures Ceil(Ceil(limit, PAGE) / PAGE * size, PAGE) == ArrayPages(limit, size) * PAGE
  {
  }

  /** A byte of the record of a good frame is mapped, into a frame of the array's own, at its
      place in the array; the array meets neither the direct map nor the kernel's pages. */
  lemma RecordReadable(t0: Tree, t: Tree, live0: seq<Entry>, live: seq<Entry>, base: nat, size: nat, limit: nat,
      frames: map<nat, nat>, g: Grant, frame: nat, b: nat)
    requires Provided(t0, t, live0, live, base, size, limit, frames, g)
        && ArrayPages(limit, size) * PAGE <= Span(t0.depth + 1)
    requires GoodPage(live0, frame * PAGE) && InRecord(frame, size, b)
    ensures b / PAGE in frames && b < ArrayPages(limit, size) * PAGE
    ensures Translate(t, base + b) == Some(Hit(frames[b / PAGE] + b % PAGE, g))
  {
    hide Translate, Span, ArrayMapped;
    PageOffset(b, b / PAGE);
    MulMono(b / PAGE + 1, ArrayPages(limit, size), PAGE);
    ByteMapped(t0, t, base, frames, g, b);
  }

  /** The size of the direct map: beyond everything the memory map describes. */
  method DirectMapSize(pmm: Pmm, initial: nat) returns (size: nat)
    requires pmm.Valid()
    ensures initial <= size && Below(pmm.Live(), size)
    ensures size == initial || exists e :: e in pmm.Live() && size == e.End()
  {
    hide Lingering;
    size := initial;
    for i := 0 to pmm.size
      invariant initial <= size && forall j :: 0 <= j < i ==> pmm.Live()[j].End() <= size
      invariant size == initial || exists e :: e in pmm.Live() && size == e.End()
    {
      var end := pmm.slots[i].base + pmm.slots[i].length;
      if end > size {
        size := end;
        assert pmm.Live()[i] in pmm.Live() && size == pmm.Live()[i].End();
      }
    }
    forall a: nat | Cover(pmm.Live(), a) != [] ensures a < size {
      var j := CoverWitness(pmm.Live(), a);
    }
  }
}
