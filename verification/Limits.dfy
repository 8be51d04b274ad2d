/** What happens at the end of the memory manager's array, shown at concrete maps. */
module Limits {
  import opened Options
  import opened MemoryMap
  import opened MapUpdate
  import opened Allocation
  import opened SlotTrace
  import opened Pmm
  import opened PageTree
  import opened Hhdm

  const BLOCK: nat := 16 * PAGE

  /** Free blocks with as much space between them. */
  function Spaced(k: nat): Entry { Entry(2 * k * BLOCK + BLOCK, BLOCK, Free) }

  ghost predicate AllSpaced(s: seq<Entry>) { forall k :: 0 <= k < |s| ==> s[k] == Spaced(k) }

  lemma SpacedTidy(s: seq<Entry>)
    requires |s| <= MAX_ENTRIES && AllSpaced(s)
    ensures Tidy(s, 0)
  {
    hide Spaced;
    forall k | 0 <= k < |s| ensures s[k].length > 0 && s[k].End() < ADDRESS_LIMIT {
      SpacedApart(k, k + 1);
    }
    forall j, k | 0 <= j < k < |s| ensures s[j].base <= s[j].End() <= s[k].base {
      SpacedApart(j, k);
    }
  }

  lemma SpacedApart(j: nat, k: nat)
    requires j < k
    ensures Spaced(j).length > 0 && Spaced(j).End() <= Spaced(k).base
    ensures j < MAX_ENTRIES ==> Spaced(j).End() < ADDRESS_LIMIT
  {
  }

  lemma UnusedLingers(dead: seq<Entry>, live: seq<Entry>)
    requires forall k :: 0 <= k < |dead| ==> dead[k] == UNUSED
    ensures Lingering(dead, live, iset{})
  {
  }

  /** A memory manager with so many entries in its map. */
  method SpacedMap(count: nat) returns (pmm: Pmm)
    requires count <= MAX_ENTRIES
    ensures fresh(pmm) && fresh(pmm.slots) && pmm.Valid() && pmm.size == count && AllSpaced(pmm.Live())
  {
    hide Tidy, Lingering, Spaced;
    pmm := new Pmm();
    for i := 0 to count
      invariant fresh(pmm) && fresh(pmm.slots) && pmm.Shape()
      invariant forall k :: 0 <= k < i ==> pmm.slots[k] == Spaced(k)
      invariant forall k :: i <= k < MAX_ENTRIES ==> pmm.slots[k] == UNUSED
    {
      pmm.slots[i] := Spaced(i);
    }
    pmm.size := count;
    SpacedTidy(pmm.Live());
    UnusedLingers(pmm.Dead(), pmm.Live());
  }

  lemma FirstHolds(s: seq<Entry>, bytes: nat)
    requires 0 < |s| && AllSpaced(s) && bytes <= BLOCK
    ensures CanHold(s, BLOCK, bytes)
  {
    assert s[0] in s && HoldsAt(s[0], BLOCK, bytes);
  }

  /** The lowest place for a block is the start of the first entry, which the claim shares. */
  lemma FirstBlock(s: seq<Entry>, bytes: nat, x: nat)
    requires 0 < |s| <= MAX_ENTRIES && AllSpaced(s) && bytes <= BLOCK && LowestFit(s, bytes, PAGE, x)
    ensures x == BLOCK && !Straddled(s, Request(x, bytes, Allocated, true))
  {
    FirstHolds(s, bytes);
    assert BLOCK % PAGE == 0 && CanHold(s, BLOCK, bytes);
    var e :| e in s && HoldsAt(e, x, bytes);
    var k :| 0 <= k < |s| && s[k] == e;
    assert forall f :: f in s ==> f.base >= BLOCK;
  }

  /** With a single slot unused, a snapshot is taken of more slots than there are. */
  method SnapshotOverrun() returns (r: Snapshot)
    ensures r.Overrun? && r.phys == BLOCK
  {
    hide Pmm.Valid, Effect, Fits, LowestFit, CanHold, Straddled, SnapshotOf, Sources, Traced, Tidy;
    var pmm := SpacedMap(MAX_ENTRIES - 1);
    ghost var s, pages := pmm.Live(), SnapshotPages(MAX_ENTRIES - 1);
    SnapshotSize();
    SpacedBelow(s);
    r := pmm.CreateSnapshot();
    if !r.HasBlock() {
      NotRefused(s, pages);
      assert false;
    }
    FirstBlock(s, r.bytes, r.phys);
  }

  lemma SnapshotSize()
    ensures SnapshotPages(MAX_ENTRIES - 1) == 7
  {
  }

  lemma SpacedBelow(s: seq<Entry>)
    requires |s| <= MAX_ENTRIES && AllSpaced(s)
    ensures forall e :: e in s && e.kind == Free ==> e.base + PAGE <= ADDRESS_LIMIT
  {
  }

  lemma NotRefused(s: seq<Entry>, pages: nat)
    requires 0 < |s| < MAX_ENTRIES && AllSpaced(s) && pages <= 16 && SnapshotPages(|s|) == pages
    ensures !SnapshotRefused(s) && !ClaimRefused(s, pages)
  {
    hide LowestFit, CanHold, Straddled;
    FirstHolds(s, pages * PAGE);
    forall x: nat | LowestFit(s, pages * PAGE, PAGE, x)
      ensures x != 0 && Need(s, Request(x, pages * PAGE, Allocated, true)) <= MAX_ENTRIES
    {
      FirstBlock(s, pages * PAGE, x);
    }
  }

  /** With no slot unused, a request above all entries compares the slot behind the array. */
  method ReadPastEnd() returns (o: Outcome)
    ensures o.PastEnd?
  {
    hide Pmm.Valid, Effect, Fits, Commands, ReachesPast, NothingFrom, Traced, Tidy;
    var pmm := SpacedMap(MAX_ENTRIES);
    var base := 2 * MAX_ENTRIES * BLOCK + BLOCK;
    AboveAll(pmm.Live(), Request(base, PAGE, Reserved, false));
    o := pmm.Set(base, PAGE, Reserved, false);
  }

  lemma AboveAll(s: seq<Entry>, r: Request)
    requires |s| == MAX_ENTRIES && AllSpaced(s) && r.base == 2 * MAX_ENTRIES * BLOCK + BLOCK && r.kind != Free
    ensures Commands(s, r) && ReachesPast(s, r)
  {
  }

  /** And so does a claim strictly inside the last free entry, when it puts back the tail. */
  method ClaimReadsPast() returns (o: Outcome, found: bool)
    ensures o.PastEnd? && found
  {
    hide Pmm.Valid, Effect, Fits, ReachesPast, FreeBlock, Tidy;
    var pmm := SpacedMap(MAX_ENTRIES);
    var address := Spaced(MAX_ENTRIES - 1).base + PAGE;
    InsideLast(pmm.Live(), Request(address, PAGE, Allocated, true));
    o, found := pmm.AllocAt(address, 1, Allocated);
  }

  lemma InsideLast(s: seq<Entry>, r: Request)
    requires |s| == MAX_ENTRIES && AllSpaced(s) && r.base == Spaced(MAX_ENTRIES - 1).base + PAGE && r.length == PAGE
    ensures ReachesPast(s, r) && FreeBlock(s, r.base, PAGE)
  {
    assert s[MAX_ENTRIES - 1] in s && Encloses(s[MAX_ENTRIES - 1], r.base, PAGE);
  }

  // ---------------------------------------------------------------- a kind that is outdated

  /** The page with number `n`, as free memory. */
  function FreePageAt(n: nat): Entry { Entry(n * PAGE, PAGE, Free) }

  const BAD_RANGE: Entry := Entry(15 * PAGE, 10 * PAGE, Bad)
  const FREE_RANGE: Entry := Entry(0x100 * PAGE, 16 * PAGE, Free)

  /** Adding a range behind all entries, and next to none, appends it. */
  lemma Appended(s: seq<Entry>, dead: seq<Entry>, r: Request, t: seq<Entry>, dead': seq<Entry>)
    requires Traced(s, dead, r, t, dead') && r.length > 0
    requires forall j :: 0 <= j < |s| ==> s[j].End() < r.base && s[j].length > 0
    ensures t == s + [Entry(r.base, r.length, r.kind)] && dead' == dead[1..]
  {
    hide Shed, Unwritten, Swallows;
    assert !Busy(s, r) by { BehindAll(s, r); }
    var n: nat :| PlaceAt(s, r, n) && Placed(s, r, n, t);
    assert n == |s| by {
      if n < |s| {
        assert false;
      }
    }
  }

  lemma BehindAll(s: seq<Entry>, r: Request)
    requires forall j :: 0 <= j < |s| ==> s[j].End() < r.base
    ensures !Busy(s, r)
  {
    forall a: nat | r.In(a) ensures Cover(s, a) == [] {
      if Cover(s, a) != [] {
        var j := CoverWitness(s, a);
      }
    }
  }

  /** One more range from the boot loader, behind all others. */
  method Append(pmm: Pmm, e: Entry)
    requires pmm.Valid() && |pmm.Live()| < 8 && e.length > 0 && e.End() < ADDRESS_LIMIT
    requires forall j :: 0 <= j < |pmm.Live()| ==> pmm.Live()[j].End() < e.base
    modifies pmm`size, pmm.slots
    ensures pmm.Valid() && pmm.Live() == old(pmm.Live()) + [e] && pmm.Dead() == old(pmm.Dead())[1..]
  {
    hide Effect, Fits, Commands, ReachesPast, NothingFrom, Straddled, Traced, NoneSpoilt, Lingering;
    ghost var s, r := pmm.Live(), Addition(e);
    BehindAll(s, r);
    FitsUnclaimed(s, r);
    UnclaimedCommands(s, r);
    var o := pmm.Add(e.base, e.length, e.kind);
    Appended(s, old(pmm.Dead()), r, pmm.Live(), pmm.Dead());
  }

  /** A range around everything there is, and of higher rank than all of it. */
  method CoverAll(pmm: Pmm, e: Entry, ghost last: Entry)
    requires pmm.Valid() && |pmm.Live()| == 4 && e.End() < ADDRESS_LIMIT && last == pmm.Live()[3]
    requires Swallows(pmm.Live(), Addition(e))
    modifies pmm`size, pmm.slots
    ensures pmm.Valid() && pmm.Live() == [e] && pmm.Dead() == [last, last, last] + old(pmm.Dead())
  {
    hide Effect, Fits, Commands, ReachesPast, NothingFrom, Straddled, NoneSpoilt, Lingering, Shed, Unwritten, Swallows,
        Placed;
    ghost var s, dead, r := pmm.Live(), pmm.Dead(), Addition(e);
    SwallowsFits(s, r);
    SwallowsCommands(s, r);
    var o := pmm.Add(e.base, e.length, e.kind);
    assert (Copies(last, 4) + dead)[1..] == [last, last, last] + dead;
  }

  lemma SwallowsFits(s: seq<Entry>, r: Request)
    requires WellFormed(s) && Swallows(s, r)
    ensures Fits(s, r)
  {
    SwallowsFitsFrom(s, r);
  }

  lemma {:induction false} SwallowsFitsFrom(s: seq<Entry>, r: Request)
    requires forall e :: e in s ==> Within(e, r) && r.Overrides(e.kind)
    ensures Fits(s, r)
  {
    if s != [] {
      assert s[0] in s;
      forall e | e in s[1..] ensures Within(e, r) && r.Overrides(e.kind) {
        assert e in s;
      }
      SwallowsFitsFrom(s[1..], r);
    }
  }

  method FourPages() returns (pmm: Pmm)
    ensures fresh(pmm) && fresh(pmm.slots) && pmm.Valid()
    ensures pmm.Live() == [FreePageAt(16), FreePageAt(18), FreePageAt(20), FreePageAt(22)]
  {
    hide Pmm.Valid, Pmm.Unspoilt, NoneSpoilt, Lingering, Tidy, EveryOther, FreePageAt, UNUSED;
    pmm := new Pmm();
    NoPages();
    for n := 0 to 4
      invariant fresh(pmm) && fresh(pmm.slots) && pmm.Valid() && pmm.Live() == EveryOther(n)
    {
      NextPage(n);
      Append(pmm, FreePageAt(16 + 2 * n));
    }
  }

  lemma NoPages()
    ensures EveryOther(0) == []
  {
  }

  lemma NextPage(n: nat)
    requires n < 4
    ensures EveryOther(n + 1) == EveryOther(n) + [FreePageAt(16 + 2 * n)]
    ensures FreePageAt(16 + 2 * n).length > 0 && FreePageAt(16 + 2 * n).End() < ADDRESS_LIMIT
    ensures forall j :: 0 <= j < n ==> EveryOther(n)[j].End() < FreePageAt(16 + 2 * n).base
  {
  }

  /** Every other page from page 16 on. */
  function EveryOther(n: nat): (s: seq<Entry>)
    ensures |s| == n && forall k :: 0 <= k < n ==> s[k] == FreePageAt(16 + 2 * k)
  {
    if n == 0 then [] else EveryOther(n - 1) + [FreePageAt(14 + 2 * n)]
  }

  lemma FourSwallowed(s: seq<Entry>)
    requires s == [FreePageAt(16), FreePageAt(18), FreePageAt(20), FreePageAt(22)]
    ensures Swallows(s, Addition(BAD_RANGE))
  {
  }

  /** Bad memory reported over free pages, and more free memory behind it: the deletions leave
      copies of the last free page in the dead slots. */
  method StaleMap() returns (pmm: Pmm)
    ensures fresh(pmm) && fresh(pmm.slots) && pmm.Valid()
    ensures pmm.Live() == [BAD_RANGE, FREE_RANGE] && pmm.Dead()[..2] == [FreePageAt(22), FreePageAt(22)]
  {
    hide Pmm.Valid, Tidy;
    pmm := FourPages();
    ghost var dead := pmm.Dead();
    FourSwallowed(pmm.Live());
    CoverAll(pmm, BAD_RANGE, FreePageAt(22));
    Append(pmm, FREE_RANGE);
    assert ([FreePageAt(22), FreePageAt(22), FreePageAt(22)] + dead)[1..] == [FreePageAt(22), FreePageAt(22)] + dead;
  }

  /** What a claim of one page does to that map. */
  lemma StaleClaim(s: seq<Entry>, x: nat)
    requires s == [BAD_RANGE, FREE_RANGE] && LowestFit(s, PAGE, PAGE, x)
    ensures x == FREE_RANGE.base && Need(s, Request(x, PAGE, Allocated, true)) == 3
  {
    assert FREE_RANGE in s && HoldsAt(FREE_RANGE, FREE_RANGE.base, PAGE);
    assert FREE_RANGE.base % PAGE == 0 && CanHold(s, FREE_RANGE.base, PAGE);
    var e :| e in s && HoldsAt(e, x, PAGE);
    assert e == FREE_RANGE;
  }

  lemma StaleRoom(s: seq<Entry>)
    requires s == [BAD_RANGE, FREE_RANGE]
    ensures SnapshotPages(2) == 1 && !SnapshotRefused(s) && !ClaimRefused(s, 1)
    ensures forall e :: e in s ==> e.base + PAGE <= ADDRESS_LIMIT
  {
    hide LowestFit, Straddled;
    assert FREE_RANGE in s && HoldsAt(FREE_RANGE, FREE_RANGE.base, PAGE);
    assert FREE_RANGE.base % PAGE == 0 && CanHold(s, FREE_RANGE.base, PAGE);
    forall x: nat | LowestFit(s, PAGE, PAGE, x)
      ensures x == FREE_RANGE.base && Need(s, Request(x, PAGE, Allocated, true)) == 3
    {
      StaleClaim(s, x);
    }
  }

  /** The slot behind those the claim may write is copied as it was. */
  lemma StaleCopied(s: seq<Entry>, dead: seq<Entry>, x: nat, t: seq<Entry>, dead': seq<Entry>)
    requires s == [BAD_RANGE, FREE_RANGE] && |dead| >= 2 && dead[..2] == [FreePageAt(22), FreePageAt(22)]
    requires LowestFit(s, PAGE, PAGE, x) && Traced(s, dead, Request(x, PAGE, Allocated, true), t, dead')
    ensures |t + dead'| == MAX_ENTRIES && (t + dead')[3] == FreePageAt(22)
  {
    hide Shed, Swallows, Placed, Straddled, Busy;
    StaleClaim(s, x);
    ForcedCommands(s, Request(x, PAGE, Allocated, true));
    assert (s + dead)[3] == dead[..2][1];
  }

  lemma StaleBad(s: seq<Entry>, x: nat, t: seq<Entry>, a: nat)
    requires s == [BAD_RANGE, FREE_RANGE] && x == FREE_RANGE.base && Carried(s, Request(x, PAGE, Allocated, true), t)
    requires a / PAGE == 22
    ensures Cover(t, a) == [Bad]
  {
    hide Cover;
    assert 22 * PAGE <= a < 23 * PAGE;
    assert s == [BAD_RANGE] + [FREE_RANGE];
    CoverConcat([BAD_RANGE], [FREE_RANGE], a);
    CoverOne(BAD_RANGE, a);
    CoverOne(FREE_RANGE, a);
    assert Cover(t, a) == Want(Request(x, PAGE, Allocated, true), a, Cover(s, a));
  }

  /** A snapshot then takes one of these copies along as free memory, although there is nothing
      but bad memory in its page. */
  method StaleSnapshot() returns (pmm: Pmm, r: Snapshot)
    ensures r.Taken? && FreePageAt(22) in r.entries && pmm.Shape()
    ensures forall a: nat :: a / PAGE == 22 ==> Cover(pmm.Live(), a) == [Bad]
  {
    hide Pmm.Valid, Effect, Fits, LowestFit, SnapshotOf, Sources, Traced, Cover, NoneSpoilt;
    pmm := StaleMap();
    ghost var s, dead := pmm.Live(), pmm.Dead();
    StaleRoom(s);
    r := pmm.CreateSnapshot();
    assert r.HasBlock() && r.Taken?;
    StaleClaim(s, r.phys);
    StaleCopied(s, dead, r.phys, pmm.Live(), pmm.Dead());
    assert r.entries == (pmm.Live() + pmm.Dead())[..4];
    assert r.entries[3] == FreePageAt(22);
    EffectCarried(s, Request(r.phys, PAGE, Allocated, true), pmm.Live());
    forall a: nat | a / PAGE == 22 ensures Cover(pmm.Live(), a) == [Bad] {
      StaleBad(s, r.phys, pmm.Live(), a);
    }
  }

  /** The direct map that is swept from it maps that page. */
  lemma StaleMapped(t0: Tree, t: Tree, hhdm: nat, entries: seq<Entry>, g: Grant, x: nat)
    requires Sweeping(t0, t, hhdm, entries, |entries|, g) && FreePageAt(22) in entries
    requires Distance(x, hhdm, Span(t0.depth + 1)) / PAGE == 22
    ensures Translate(t, x) == Some(Hit(Distance(x, hhdm, Span(t0.depth + 1)), g))
  {
    hide Translate, Distance, Span;
    var j :| 0 <= j < |entries| && entries[j] == FreePageAt(22);
    assert InPages(entries[j], Distance(x, hhdm, Span(t0.depth + 1)));
  }
}
