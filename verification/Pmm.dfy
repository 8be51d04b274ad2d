/** The physical memory manager: a fixed array of entries, of which a prefix is live, that
    is updated in place. */
module Pmm {
  import opened MemoryMap
  import opened MapUpdate
  import opened Allocation
  import opened SlotTrace

  /** The content of a slot that was never used. */
  const UNUSED: Entry := Entry(0, 0, Free)

  /** Slots behind the live prefix were never used, or describe addresses that are still
      described by live entries, except for those in `hole`. */
  ghost predicate Lingering(dead: seq<Entry>, live: seq<Entry>, hole: iset<nat>) {
    forall d :: d in dead ==>
        d == UNUSED || (d.length > 0 && forall a :: d.Has(a) ==> Cover(live, a) != [] || a in hole)
  }

  /** The addresses still to be described: those of the request `c`, and those `pledged`
      by the requests it is a part of. */
  ghost function Hole(c: Request, pledged: iset<nat>): iset<nat> {
    iset a: nat | c.In(a) || a in pledged
  }

  /** Nothing next to the request is pledged: no slot can claim to start where it ends. */
  ghost predicate Pledged(s: seq<Entry>, r: Request, pledged: iset<nat>) {
    forall a :: a in pledged ==> a < r.base || (r.End() < a && !Straddled(s, r))
  }

  lemma LingeringStep(dead: seq<Entry>, live: seq<Entry>, hole: iset<nat>, dead': seq<Entry>, live': seq<Entry>,
      hole': iset<nat>)
    requires Lingering(dead, live, hole)
    requires forall d :: d in dead' ==> d in dead || (d in live && d.length > 0)
    requires forall a :: Cover(live, a) != [] || a in hole ==> Cover(live', a) != [] || a in hole'
    ensures Lingering(dead', live', hole')
  {
    forall d, a: nat | d in dead' && d != UNUSED && d.Has(a) ensures Cover(live', a) != [] || a in hole' {
      if d in live {
        var j :| 0 <= j < |live| && live[j] == d;
        CoverAt(live, j, a);
      }
    }
  }

  lemma CutLingering(s0: seq<Entry>, r: Request, s: seq<Entry>, i: nat, c: Request, phase: Phase, es: seq<Entry>,
      dead: seq<Entry>, dead': seq<Entry>, pledged: iset<nat>, lo: nat, hi: nat)
    requires Walk(s0, r, s, i, c, phase, lo, hi) && i < |s| && Cut(s, i, c, es) && Lingering(dead, s, Hole(c, pledged))
    requires dead' == dead || dead' == [s[|s| - 1]] + dead
    ensures Lingering(dead', Splice(s, i, es), Hole(c, pledged))
  {
    forall a: nat | Cover(s, a) != [] || c.In(a) ensures Cover(Splice(s, i, es), a) != [] || c.In(a) {
      CutCover(s, i, c, es, lo, a);
    }
    LingeringStep(dead, s, Hole(c, pledged), dead', Splice(s, i, es), Hole(c, pledged));
  }

  lemma NarrowLingering(s: seq<Entry>, i: nat, c: Request, d: Request, dead: seq<Entry>, pledged: iset<nat>)
    requires i < |s| && Narrowed(s[i], c, d) && Lingering(dead, s, Hole(c, pledged))
    ensures Lingering(dead, s, Hole(d, pledged))
  {
    forall a: nat | a in Hole(c, pledged) ensures Cover(s, a) != [] || a in Hole(d, pledged) {
      CoverAt(s, i, a);
    }
    LingeringStep(dead, s, Hole(c, pledged), dead, s, Hole(d, pledged));
  }

  /** While the tail of a split entry is being put back, the request itself is pledged. */
  lemma SplitLingering(s: seq<Entry>, i: nat, c: Request, lo: nat, dead: seq<Entry>, pledged: iset<nat>)
    requires Tidy(s, lo) && lo <= c.base && i < |s| && Surrounds(s[i], c) && Lingering(dead, s, Hole(c, pledged))
    ensures Lingering(dead, s[i := HeadOf(s[i], c)], Hole(TailOf(s[i], c), Hole(c, pledged)))
  {
    SplitReady(s, i, c, lo);
    LingeringStep(dead, s, Hole(c, pledged), dead, s[i := HeadOf(s[i], c)], Hole(TailOf(s[i], c), Hole(c, pledged)));
  }

  /** The slot behind the last live entry never looks like a neighbour of the request. */
  lemma NoStaleNeighbour(s0: seq<Entry>, r: Request, s: seq<Entry>, c: Request, phase: Phase, d: Entry,
      dead: seq<Entry>, pledged: iset<nat>, lo: nat, hi: nat)
    requires Walk(s0, r, s, |s|, c, phase, lo, hi) && c.length > 0
    requires PlaceAt(s, c, |s|) && Pledged(s0, r, pledged)
    requires d in dead && Lingering(dead, s, Hole(c, pledged))
    ensures d.base != c.End()
  {
    hide KeepsBlocks, SameAbove, Untouched, Budget, Fits, Straddled, CleanCut, Keeps, Rescued;
    if d.base == c.End() {
      assert d.Has(d.base);
      var j := CoverWitness(s, d.base);
      assert false;
    }
  }

  /** A request re-issued by the walk has a smaller weight, or the same and is shorter. */
  ghost function Weight(s: seq<Entry>, r: Request): nat {
    if r.length == 0 || Busy(s, r) then 1 else 0
  }

  /** How a request ends: carried out, with the panic of an insertion into a full array, or
      with a comparison that reads the slot behind the array's last. */
  datatype Outcome = Settled | ArrayFull | PastEnd

  lemma ReadsPastAt(s: seq<Entry>, c: Request, n: nat, lo: nat)
    requires PlaceAt(s, c, n) && |s| <= MAX_ENTRIES && Tidy(s, lo)
    ensures ReadsPast(s, c) <==> n == MAX_ENTRIES && !(s[n - 1].kind == c.kind && s[n - 1].End() == c.base)
  {
    if |s| == MAX_ENTRIES && n < MAX_ENTRIES {
      assert s[MAX_ENTRIES - 1].base > c.base;
    }
  }

  /** What a call of `MapSet` relies on. */
  ghost predicate Callable(s: seq<Entry>, r: Request, dead: seq<Entry>, pledged: iset<nat>, lo: nat, hi: nat) {
    && Tidy(s, lo) && lo <= r.base && r.End() < hi <= ADDRESS_LIMIT && CleanCut(s, hi)
    && (lo == 0 || r.length > 0)
    && Pledged(s, r, pledged) && Lingering(dead, s, Hole(r, pledged))
  }

  lemma SplitCall(s0: seq<Entry>, r: Request, s: seq<Entry>, i: nat, c: Request, phase: Phase, dead: seq<Entry>,
      pledged: iset<nat>, lo: nat, hi: nat)
    requires Walk(s0, r, s, i, c, phase, lo, hi) && i < |s| && Surrounds(s[i], c)
    requires Pledged(s0, r, pledged) && Lingering(dead, s, Hole(c, pledged))
    ensures Callable(s[i := HeadOf(s[i], c)], TailOf(s[i], c), dead, Hole(c, pledged), lo, ADDRESS_LIMIT)
  {
    hide Tidy, Lingering, KeepsBlocks, SameAbove, Verdict, Untouched, Fits, Cover;
    SplitReady(s, i, c, lo);
    SplitFits(s0, r, s, i, c, phase, lo, hi);
    SplitLingering(s, i, c, lo, dead, pledged);
  }

  lemma SplitWeight(s0: seq<Entry>, r: Request, s: seq<Entry>, i: nat, c: Request, phase: Phase, lo: nat, hi: nat)
    requires Walk(s0, r, s, i, c, phase, lo, hi) && i < |s| && Surrounds(s[i], c)
    ensures Weight(s[i := HeadOf(s[i], c)], TailOf(s[i], c)) < Weight(s0, r)
    ensures Need(s[i := HeadOf(s[i], c)], TailOf(s[i], c)) <= Need(s0, r)
    ensures r.length > 0 ==> Busy(s0, r)
  {
    hide Tidy, KeepsBlocks, SameAbove, Verdict, Untouched, Fits, Cover;
    SplitReady(s, i, c, lo);
    SplitFits(s0, r, s, i, c, phase, lo, hi);
    ApartNotBusy(s[i := HeadOf(s[i], c)], TailOf(s[i], c));
    assert Meets(s[i], c);
  }

  lemma SplitDone(s0: seq<Entry>, r: Request, s: seq<Entry>, i: nat, c: Request, phase: Phase, s2: seq<Entry>, lo: nat,
      hi: nat)
    requires Walk(s0, r, s, i, c, phase, lo, hi)
    requires i < |s| && Surrounds(s[i], c) && c.Overrides(s[i].kind)
    requires Post(s[i := HeadOf(s[i], c)], TailOf(s[i], c), s2, lo, ADDRESS_LIMIT)
    ensures Walk(s0, r, s2, i + 1, c, Clean, lo, hi)
    ensures if Meeting(s, i, c) then !Meeting(s2, i + 1, c) else |s2| == |s|
  {
    SplitSound(s0, r, s, i, c, s2, lo);
    StepSplit(s0, r, s, i, c, phase, s2, lo, hi);
  }

  lemma FirstCall(s0: seq<Entry>, r: Request, s: seq<Entry>, i: nat, c: Request, phase: Phase, dead: seq<Entry>,
      pledged: iset<nat>, lo: nat, hi: nat)
    requires Walk(s0, r, s, i, c, phase, lo, hi) && hi <= ADDRESS_LIMIT
    requires i < |s| && Within(s[i], c) && !c.Overrides(s[i].kind)
    requires Pledged(s0, r, pledged) && Lingering(dead, s, Hole(c, pledged))
    ensures Callable(s, c.UpTo(s[i].base), dead, Hole(c.From(s[i].End()), pledged), lo, s[i].End())
    ensures Weight(s, c.UpTo(s[i].base)) <= Weight(s0, r) && c.UpTo(s[i].base).length < r.length
    ensures !Straddled(s, c.UpTo(s[i].base))
  {
    hide KeepsBlocks, SameAbove, Verdict, Untouched, JoinsAt, Lingering, Fits, Cover, CleanCut, Straddled, Busy;
    HalvesReady(s0, r, s, i, c, phase, lo, hi);
    HalvesLingering(s, i, c, dead, pledged);
  }

  lemma HalvesMet(s0: seq<Entry>, r: Request, s: seq<Entry>, i: nat, c: Request, phase: Phase, lo: nat, hi: nat)
    requires Walk(s0, r, s, i, c, phase, lo, hi) && i < |s| && Within(s[i], c) && !c.Overrides(s[i].kind)
    ensures Busy(s0, r) && !Commands(s0, r)
  {
    hide Ahead, Verdict, Budget, KeepsBlocks, Commands, Busy;
    BusyAt(s0, r, s, i, c, lo);
    MetStanding(s0, r, s, i, c, lo);
  }

  /** What is left of the request next to an entry that stands is in the two halves. */
  lemma HalvesLingering(s: seq<Entry>, i: nat, c: Request, dead: seq<Entry>, pledged: iset<nat>)
    requires i < |s| && Within(s[i], c) && Lingering(dead, s, Hole(c, pledged))
    ensures Lingering(dead, s, Hole(c.UpTo(s[i].base), Hole(c.From(s[i].End()), pledged)))
  {
    var c1, c2 := c.UpTo(s[i].base), c.From(s[i].End());
    forall a: nat | c.In(a) ensures Cover(s, a) != [] || c1.In(a) || c2.In(a) {
      CoverAt(s, i, a);
    }
    LingeringStep(dead, s, Hole(c, pledged), dead, s, Hole(c1, Hole(c2, pledged)));
  }

  lemma SecondCall(s0: seq<Entry>, r: Request, s: seq<Entry>, i: nat, c: Request, phase: Phase, s1: seq<Entry>,
      dead: seq<Entry>, pledged: iset<nat>, lo: nat, hi: nat)
    requires Walk(s0, r, s, i, c, phase, lo, hi) && hi <= ADDRESS_LIMIT
    requires i < |s| && Within(s[i], c) && !c.Overrides(s[i].kind)
    requires Pledged(s0, r, pledged) && Post(s, c.UpTo(s[i].base), s1, lo, s[i].End())
    requires Lingering(dead, s1, Hole(c.From(s[i].End()), pledged))
    ensures Callable(s1, c.From(s[i].End()), dead, pledged, SecondLo(s, s[i], c, lo), hi)
    ensures Weight(s1, c.From(s[i].End())) <= Weight(s0, r) && c.From(s[i].End()).length < r.length
    ensures !Straddled(s1, c.From(s[i].End()))
  {
    hide Fits, Tidy, Carried, KeepsBlocks, Verdict, Lingering;
    assert Meets(s[i], c);
    HalvesReady(s0, r, s, i, c, phase, lo, hi);
    SecondReady(s, s[i], c, s1, lo, hi);
    assert !Straddled(s1, c.From(s[i].End()));
  }

  /** The entry that stands is described, so the first half does not look behind the array. */
  lemma HalvesPast(s0: seq<Entry>, r: Request, s: seq<Entry>, i: nat, c: Request, phase: Phase, lo: nat, hi: nat)
    requires Walk(s0, r, s, i, c, phase, lo, hi) && i < |s|
    ensures !NothingFrom(s, s[i].base)
  {
    hide Ahead, Verdict, Budget;
    CoverAt(s, i, s[i].base);
  }

  /** Nothing above the second half is nothing above the request. */
  lemma SecondPast(s0: seq<Entry>, r: Request, s: seq<Entry>, i: nat, c: Request, phase: Phase, s1: seq<Entry>, lo: nat,
      hi: nat)
    requires Walk(s0, r, s, i, c, phase, lo, hi) && i < |s| && Within(s[i], c)
    requires forall a: nat :: a >= s[i].base ==> Cover(s1, a) == Cover(s, a)
    ensures NothingFrom(s1, c.End()) ==> NothingFrom(s0, r.End())
  {
    hide Ahead, Verdict, Budget, KeepsBlocks;
    if NothingFrom(s1, c.End()) {
      forall a: nat | r.End() <= a ensures Cover(s0, a) == [] {
        assert Cover(s1, a) == [];
      }
    }
  }

  /** The first half changes nothing from the entry that stands on. */
  lemma FirstKept(s: seq<Entry>, c: Request, i: nat, s1: seq<Entry>, lo: nat)
    requires i < |s| && Within(s[i], c) && Post(s, c.UpTo(s[i].base), s1, lo, s[i].End())
    ensures forall a: nat :: a >= s[i].base ==> Cover(s1, a) == Cover(s, a)
  {
  }

  /** `all` with its elements from `i` up to `n` moved one place up, over element `n`. */
  ghost function Moved(all: seq<Entry>, i: nat, n: nat): seq<Entry>
    requires i <= n < |all|
    ensures |Moved(all, i, n)| == |all|
  {
    all[..i + 1] + all[i..n] + all[n + 1..]
  }

  lemma MovedNone(all: seq<Entry>, n: nat)
    requires n < |all|
    ensures Moved(all, n, n) == all
  {
  }

  lemma MovedOne(all: seq<Entry>, i: nat, n: nat)
    requires 0 < i <= n < |all|
    ensures |Moved(all, i, n)| == |all| && Moved(all, i, n)[i - 1] == all[i - 1]
    ensures Moved(all, i, n)[i := all[i - 1]] == Moved(all, i - 1, n)
  {
  }

  /** Writing the gap inserts an entry into the first `n`, and drops the first of the others. */
  lemma MovedAll(all: seq<Entry>, index: nat, n: nat, entry: Entry)
    requires index <= n < |all|
    ensures var t := Moved(all, index, n)[index := entry];
            t[..n + 1] == all[..n][..index] + [entry] + all[..n][index..] && t[n + 1..] == all[n..][1..]
  {
  }

  class Pmm {
    const slots: array<Entry>
    var size: nat

    ghost predicate Shape()
      reads this
    {
      slots.Length == MAX_ENTRIES && size <= MAX_ENTRIES
    }

    ghost function Live(): seq<Entry>
      reads this, slots
      requires Shape()
    {
      slots[..size]
    }

    ghost function Dead(): seq<Entry>
      reads this, slots
      requires Shape()
    {
      slots[size..]
    }

    ghost predicate Rep(lo: nat)
      reads this, slots
    {
      Shape() && Tidy(Live(), lo)
    }

    ghost predicate Valid()
      reads this, slots
      ensures Valid() ==> Shape()
    {
      Rep(0) && Lingering(Dead(), Live(), iset{})
    }

    /** No dead slot of another kind describes memory that is bad now. */
    ghost predicate Unspoilt()
      reads this, slots
      requires Shape()
    {
      NoneSpoilt(Live(), Dead())
    }

    /** No block of so many pages can be claimed: the array is full, or there is no room. */
    ghost predicate Exhausted(pages: nat)
      reads this, slots
    {
      Shape() && (size == MAX_ENTRIES || NoRoom(Live(), pages))
    }

    constructor ()
      ensures Valid() && Live() == [] && Unspoilt() && slots.Length == 1024
      ensures fresh(slots) && forall k :: 0 <= k < MAX_ENTRIES ==> slots[k] == UNUSED
    {
      slots := new Entry[MAX_ENTRIES](i => UNUSED);
      size := 0;
    }

    method MapInsert(index: nat, entry: Entry) returns (ok: bool)
      requires Shape() && index <= size
      modifies this`size, slots
      ensures Shape() && (ok <==> old(size) < MAX_ENTRIES) && (!ok ==> size == MAX_ENTRIES)
      ensures ok ==> Live() == old(Live())[..index] + [entry] + old(Live())[index..]
      ensures ok ==> Dead() == old(Dead())[1..]
    {
      hide Moved;
      if size == MAX_ENTRIES {
        return false;
      }
      ghost var all := slots[..];
      var i := size;
      MovedNone(all, size);
      while i > index
        invariant size == old(size) && index <= i <= size
        invariant slots[..] == Moved(all, i, size)
      {
        ghost var before := slots[..];
        MovedOne(all, i, size);
        slots[i] := slots[i - 1];
        assert slots[..] == before[i := before[i - 1]];
        i := i - 1;
      }
      MovedAll(all, index, size, entry);
      slots[index] := entry;
      assert slots[..] == Moved(all, index, size)[index := entry];
      size := size + 1;
      return true;
    }

    method MapDelete(index: nat)
      requires Shape() && index < size
      modifies this`size, slots
      ensures Shape()
      ensures Live() == old(Live())[..index] + old(Live())[index + 1..]
      ensures Dead() == [old(Live())[|old(Live())| - 1]] + old(Dead())
    {
      var i := index;
      while i < size - 1
        invariant size == old(size) && index <= i <= size - 1
        invariant forall j :: 0 <= j < index ==> slots[j] == old(slots[j])
        invariant forall j :: index <= j < i ==> slots[j] == old(slots[j + 1])
        invariant forall j :: i <= j < MAX_ENTRIES ==> slots[j] == old(slots[j])
      {
        slots[i] := slots[i + 1];
        i := i + 1;
      }
      size := size - 1;
    }

    /** The walk of a request has reached slot `i` with the part `c` of it still to place. */
    ghost predicate At(s0: seq<Entry>, dead0: seq<Entry>, r: Request, i: nat, c: Request, phase: Phase,
        pledged: iset<nat>, lo: nat, hi: nat)
      reads this, slots
    {
      && Shape() && i <= size && Walk(s0, r, Live(), i, c, phase, lo, hi)
      && Pledged(s0, r, pledged) && Lingering(Dead(), Live(), Hole(c, pledged))
      && Trail(s0, dead0, r, Live(), Dead(), i)
    }

    /** The request is carried out as far as the map allows. */
    ghost predicate Done(s0: seq<Entry>, dead0: seq<Entry>, r: Request, pledged: iset<nat>, lo: nat, hi: nat)
      reads this, slots
    {
      && Shape() && Post(s0, r, Live(), lo, hi) && Lingering(Dead(), Live(), pledged)
      && Traced(s0, dead0, r, Live(), Dead())
    }

    method TrimSlot(i: nat, f: Entry, ghost s0: seq<Entry>, ghost dead0: seq<Entry>, ghost r: Request, ghost c: Request,
        ghost phase: Phase, ghost pledged: iset<nat>, ghost lo: nat, ghost hi: nat)
      returns (ghost next: Phase)
      requires At(s0, dead0, r, i, c, phase, pledged, lo, hi) && i < size && Cut(Live(), i, c, [f])
      modifies slots
      ensures At(s0, dead0, r, i + 1, c, next, pledged, lo, hi) && slots[i] == f
      ensures old(Meeting(Live(), i, c))
    {
      hide Walk, Post, Lingering, Pledged, Callable, Weight, Need, Trail, Traced;
      ghost var s, dead := Live(), Dead();
      next := StepCut(s0, r, s, i, c, phase, [f], lo, hi);
      TrailTrim(s0, dead0, r, s, dead, i, c, phase, f, lo, hi);
      CutLingering(s0, r, s, i, c, phase, [f], dead, dead, pledged, lo, hi);
      slots[i] := f;
      assert Live() == Splice(s, i, [f]) == s[i := f] && Dead() == dead;
    }

    method DropSlot(i: nat, ghost s0: seq<Entry>, ghost dead0: seq<Entry>, ghost r: Request, ghost c: Request,
        ghost phase: Phase, ghost pledged: iset<nat>, ghost lo: nat, ghost hi: nat)
      returns (ghost next: Phase)
      requires At(s0, dead0, r, i, c, phase, pledged, lo, hi) && i < size && Cut(Live(), i, c, [])
      requires c.base == slots[i].base <==> slots[i].End() == c.End()
      modifies this`size, slots
      ensures At(s0, dead0, r, i, c, next, pledged, lo, hi) && size == old(size) - 1
      ensures old(Meeting(Live(), i, c))
    {
      hide Walk, Post, Lingering, Pledged, Callable, Weight, Need, Trail, Traced;
      ghost var s, dead := Live(), Dead();
      next := StepCut(s0, r, s, i, c, phase, [], lo, hi);
      TrailDrop(s0, dead0, r, s, dead, i, c, phase, lo, hi);
      CutLingering(s0, r, s, i, c, phase, [], dead, [s[|s| - 1]] + dead, pledged, lo, hi);
      SpliceNothing(s, i);
      MapDelete(i);
    }

    method FindPlace(base: nat, ghost s0: seq<Entry>, ghost dead0: seq<Entry>, ghost r: Request, ghost c: Request,
        ghost phase: Phase, ghost pledged: iset<nat>, ghost lo: nat, ghost hi: nat)
      returns (i: nat)
      requires At(s0, dead0, r, size, c, phase, pledged, lo, hi) && c.base == base
      ensures PlaceAt(Live(), c, i)
    {
      hide Lingering, Pledged, Verdict, Ahead, Budget, Trail;
      i := 0;
      while i < size && slots[i].base <= base
        invariant i <= size
        invariant forall j :: 0 <= j < i ==> slots[j].base <= base
      {
        i := i + 1;
      }
      assert i < size ==> Live()[i] == slots[i];
    }

    method GrowSlot(i: nat, f: Entry, ghost n: nat, ghost s0: seq<Entry>, ghost dead0: seq<Entry>, ghost r: Request,
        ghost c: Request, ghost phase: Phase, ghost pledged: iset<nat>, ghost lo: nat, ghost hi: nat)
      requires At(s0, dead0, r, size, c, phase, pledged, lo, hi) && c.length > 0 && hi <= ADDRESS_LIMIT
      requires i < size && PlaceAt(Live(), c, n) && Placed(Live(), c, n, Live()[i := f])
      modifies slots
      ensures Done(s0, dead0, r, pledged, lo, hi)
    {
      hide Walk, Post, Lingering, Pledged, Callable, Weight, Need, Trail, Traced;
      ghost var s, dead := Live(), Dead();
      PlacedDone(s0, r, s, c, phase, n, s[i := f], dead, dead, pledged, lo, hi);
      NeedAt(s0, dead0, r, c, phase, pledged, lo, hi);
      TrailPlace(s0, dead0, r, s, dead, c, phase, lo, hi, n, s[i := f]);
      slots[i] := f;
      assert Live() == s[i := f] && Dead() == dead;
    }

    method NewSlot(i: nat, ghost s0: seq<Entry>, ghost dead0: seq<Entry>, ghost r: Request, c: Request,
        ghost phase: Phase, ghost pledged: iset<nat>, ghost lo: nat, ghost hi: nat)
      returns (ok: bool)
      requires At(s0, dead0, r, size, c, phase, pledged, lo, hi) && c.length > 0 && hi <= ADDRESS_LIMIT
      requires PlaceAt(Live(), c, i) && Placed(Live(), c, i, Live()[..i] + [Entry(c.base, c.length,
          c.kind)] + Live()[i..])
      modifies this`size, slots
      ensures Shape()
      ensures ok ==> Done(s0, dead0, r, pledged, lo, hi)
      ensures !ok ==> old(size) == MAX_ENTRIES && size == MAX_ENTRIES
    {
      hide Walk, Post, Lingering, Pledged, Callable, Weight, Need, Trail, Traced;
      ghost var s, dead := Live(), Dead();
      ghost var t := s[..i] + [Entry(c.base, c.length, c.kind)] + s[i..];
      if size < MAX_ENTRIES {
        PlacedDone(s0, r, s, c, phase, i, t, dead, dead[1..], pledged, lo, hi);
        NeedAt(s0, dead0, r, c, phase, pledged, lo, hi);
        TrailPlace(s0, dead0, r, s, dead, c, phase, lo, hi, i, t);
      }
      ok := MapInsert(i, Entry(c.base, c.length, c.kind));
    }

    /** Whatever is left of a request once the walk is over becomes part of the map. */
    method PlaceRest(c: Request, ghost s0: seq<Entry>, ghost dead0: seq<Entry>, ghost r: Request, ghost phase: Phase,
        ghost pledged: iset<nat>, ghost lo: nat, ghost hi: nat)
      returns (o: Outcome)
      requires At(s0, dead0, r, size, c, phase, pledged, lo, hi) && c.length > 0 && hi <= ADDRESS_LIMIT
      modifies this`size, slots
      ensures Shape()
      ensures o.Settled? ==> Done(s0, dead0, r, pledged, lo, hi)
      ensures !o.Settled? ==> old(size) == MAX_ENTRIES && size == MAX_ENTRIES
      ensures o.PastEnd? <==> ReadsPast(old(Live()), c)
      ensures Commands(s0, r) ==> (o.PastEnd? <==> ReachesPast(s0, r))
      ensures o.PastEnd? ==> NothingFrom(s0, r.End())
    {
      hide Walk, Post, Lingering, Pledged, ReadsPast, Trail, Traced, Commands, ReachesPast;
      TrackedEnd(s0, dead0, r, Live(), Dead(), c, phase, lo, hi);
      var i := FindPlace(c.base, s0, dead0, r, c, phase, pledged, lo, hi);
      PastAtEnd(s0, dead0, r, c, phase, pledged, lo, hi, i);
      if i != 0 && slots[i - 1].kind == c.kind && slots[i - 1].base + slots[i - 1].length == c.base {
        GrowSlot(i - 1, Entry(slots[i - 1].base, slots[i - 1].length + c.length, c.kind), i, s0, dead0, r, c, phase,
            pledged, lo, hi);
        return Settled;
      }
      if i == MAX_ENTRIES {
        // The comparison below would read the slot behind the array.
        return PastEnd;
      }
      if i == size {
        assert slots[i] == Dead()[0];
        NoStaleNeighbour(s0, r, Live(), c, phase, Dead()[0], Dead(), pledged, lo, hi);
      }
      if slots[i].kind == c.kind && slots[i].base == c.base + c.length {
        GrowSlot(i, Entry(c.base, slots[i].length + c.length, c.kind), i, s0, dead0, r, c, phase, pledged, lo, hi);
        return Settled;
      }
      var ok := NewSlot(i, s0, dead0, r, c, phase, pledged, lo, hi);
      return if ok then Settled else ArrayFull;
    }

    lemma PastAtEnd(s0: seq<Entry>, dead0: seq<Entry>, r: Request, c: Request, phase: Phase, pledged: iset<nat>,
        lo: nat, hi: nat, n: nat)
      requires At(s0, dead0, r, size, c, phase, pledged, lo, hi) && PlaceAt(Live(), c, n)
      ensures n <= size && (ReadsPast(Live(), c) <==>
          n == MAX_ENTRIES && !(slots[n - 1].kind == c.kind && slots[n - 1].End() == c.base))
    {
      hide Lingering, Pledged, Ahead, Verdict, Budget, ReadsPast, Trail;
      ReadsPastAt(Live(), c, n, lo);
    }

    /** An overridden entry around the request: it keeps its head, and its tail is put back. */
    method SplitSlot(i: nat, c: Request, ghost s0: seq<Entry>, ghost dead0: seq<Entry>, ghost r: Request,
        ghost phase: Phase, ghost pledged: iset<nat>, ghost lo: nat, ghost hi: nat)
      returns (o: Outcome)
      requires At(s0, dead0, r, i, c, phase, pledged, lo, hi) && hi <= ADDRESS_LIMIT
      requires i < size && Surrounds(slots[i], c) && c.Overrides(slots[i].kind)
      modifies this`size, slots
      ensures Shape()
      ensures o.Settled? ==> i < size && At(s0, dead0, r, i + 1, c, Clean, pledged, lo, hi)
      ensures o.Settled? ==> if old(Meeting(Live(), i, c)) then !Meeting(Live(), i + 1, c) else size == old(size)
      ensures !o.Settled? ==> size == MAX_ENTRIES
      ensures !o.Settled? ==> Need(s0, r) > MAX_ENTRIES
      ensures r.length > 0 ==> Busy(s0, r)
      ensures r.length > 0 && Commands(s0, r) ==> (o.PastEnd? <==> ReachesPast(s0, r))
      ensures Straddled(s0, r)
      decreases Weight(s0, r), r.length, 0
    {
      hide Walk, Post, Lingering, Pledged, Callable, Weight, Need, Trail, Traced, Commands, ReachesPast, Topmost,
          Swallows;
      ghost var s, dead := Live(), Dead();
      var e := slots[i];
      SplitCall(s0, r, s, i, c, phase, dead, pledged, lo, hi);
      SplitWeight(s0, r, s, i, c, phase, lo, hi);
      assert s[i] == e;
      SplitFits(s0, r, s, i, c, phase, lo, hi);
      SplitReaches(s0, dead0, r, s, dead, i, c, phase, lo, hi);
      ForcedCommands(s[i := HeadOf(e, c)], TailOf(e, c));

      var startBase := e.base;
      var startLength := c.base - startBase;
      var endBase := c.base + c.length;
      var endLength := (e.base + e.length) - endBase;
      slots[i] := Entry(startBase, startLength, e.kind);
      assert Live() == s[i := HeadOf(e, c)] && Dead() == dead;
      o := MapSet(endBase, endLength, e.kind, true, Hole(c, pledged), lo, ADDRESS_LIMIT);
      if o.Settled? {
        SplitDone(s0, r, s, i, c, phase, Live(), lo, hi);
        TrailSplit(s0, dead0, r, s, dead, i, c, phase, lo, hi, Live(), Dead());
      }
    }

    /** A standing entry inside the request: what is below and above it is set separately. */
    method SetHalves(i: nat, c: Request, ghost s0: seq<Entry>, ghost dead0: seq<Entry>, ghost r: Request,
        ghost phase: Phase, ghost pledged: iset<nat>, ghost lo: nat, ghost hi: nat)
      returns (o: Outcome)
      requires At(s0, dead0, r, i, c, phase, pledged, lo, hi) && hi <= ADDRESS_LIMIT
      requires i < size && Within(slots[i], c) && !c.Overrides(slots[i].kind)
      modifies this`size, slots
      ensures Shape()
      ensures o.Settled? ==> Done(s0, dead0, r, pledged, lo, hi)
      ensures !o.Settled? ==> size == MAX_ENTRIES
      ensures r.length > 0 ==> Busy(s0, r) && !Commands(s0, r)
      ensures o.PastEnd? ==> NothingFrom(s0, r.End())
      decreases Weight(s0, r), r.length, 0
    {
      hide Walk, Post, Lingering, Pledged, Callable, Weight, Need, Trail, Traced, Commands, Straddled, NothingFrom;
      ghost var s, dead := Live(), Dead();
      var e := slots[i];
      EntryAt(s0, dead0, r, i, c, phase, pledged, lo, hi);
      HalvesMet(s0, r, s, i, c, phase, lo, hi);
      FirstCall(s0, r, s, i, c, phase, Dead(), pledged, lo, hi);
      assert s[i] == e;

      var startBase := c.base;
      var startLength := e.base - startBase;
      var endBase := e.base + e.length;
      var endLength := (c.base + c.length) - endBase;
      assert Request(startBase, startLength, c.kind, c.force) == c.UpTo(e.base);
      o := MapSet(startBase, startLength, c.kind, c.force, Hole(c.From(e.End()), pledged), lo, e.End());
      if !o.Settled? {
        HalvesPast(s0, r, s, i, c, phase, lo, hi);
        return;
      }
      ghost var s1, dead1 := Live(), Dead();
      FirstKept(s, c, i, s1, lo);
      SecondCall(s0, r, s, i, c, phase, s1, Dead(), pledged, lo, hi);
      assert Request(endBase, endLength, c.kind, c.force) == c.From(e.End());
      o := MapSet(endBase, endLength, c.kind, c.force, pledged, SecondLo(s, e, c, lo), hi);
      if !o.Settled? {
        SecondPast(s0, r, s, i, c, phase, s1, lo, hi);
        return;
      }
      TrailHalves(s0, dead0, r, s, dead, i, c, phase, lo, hi, s1, dead1, Live(), Dead());
      StepHalves(s0, r, s, i, c, phase, s1, Live(), lo, hi);
    }

    /** Stopping at an entry that stands and holds all that is left of the request. */
    lemma StandsAt(s0: seq<Entry>, dead0: seq<Entry>, r: Request, i: nat, c: Request, phase: Phase, pledged: iset<nat>,
        lo: nat, hi: nat)
      requires At(s0, dead0, r, i, c, phase, pledged, lo, hi) && i < size && !c.Overrides(slots[i].kind)
      requires Surrounds(slots[i], c) || (slots[i].base == c.base && c.End() == slots[i].End())
      ensures Done(s0, dead0, r, pledged, lo, hi) && (r.length > 0 ==> Busy(s0, r) && !Commands(s0, r))
    {
      hide Walk, Post, Lingering, Trail, Traced, Commands;
      assert Live()[i] == slots[i];
      WalkStands(s0, r, Live(), i, c, phase, Dead(), pledged, lo, hi);
      WalkMet(s0, r, Live(), i, c, phase, lo, hi);
      TrailEnds(s0, dead0, r, Live(), Dead(), i, c, phase, lo, hi);
    }

    lemma NarrowAt(s0: seq<Entry>, dead0: seq<Entry>, r: Request, i: nat, c: Request, phase: Phase, d: Request,
        pledged: iset<nat>, lo: nat, hi: nat)
      returns (next: Phase)
      requires At(s0, dead0, r, i, c, phase, pledged, lo, hi) && i < size && !c.Overrides(slots[i].kind)
          && Narrowed(slots[i], c, d)
      ensures At(s0, dead0, r, i + 1, d, next, pledged, lo, hi) && Meeting(Live(), i, c)
    {
      hide Walk, Lingering, Pledged, Trail;
      assert Live()[i] == slots[i];
      next := WalkNarrow(s0, r, Live(), i, c, phase, d, Dead(), pledged, lo, hi);
      EntryAt(s0, dead0, r, i, c, phase, pledged, lo, hi);
      TrailNarrow(s0, dead0, r, Live(), Dead(), i, c, phase, lo, hi);
    }

    lemma PastAt(s0: seq<Entry>, dead0: seq<Entry>, r: Request, i: nat, c: Request, phase: Phase, pledged: iset<nat>,
        lo: nat, hi: nat)
      returns (next: Phase)
      requires At(s0, dead0, r, i, c, phase, pledged, lo, hi) && i < size
      requires Apart(slots[i], c) || (Inside(slots[i], c) && !(c.base == slots[i].base <==> slots[i].End() == c.End()))
      ensures At(s0, dead0, r, i + 1, c, next, pledged, lo, hi)
      ensures Meeting(Live(), i + 1, c) ==> Meeting(Live(), i, c)
    {
      hide Walk, Lingering, Pledged, Trail;
      assert Live()[i] == slots[i];
      next := WalkPast(s0, r, Live(), i, c, phase, lo, hi);
      TrailPass(s0, dead0, r, Live(), Dead(), i, c, phase, lo, hi);
    }

    lemma StartsAt(r: Request, pledged: iset<nat>, lo: nat, hi: nat)
      requires Shape() && Callable(Live(), r, Dead(), pledged, lo, hi)
      ensures At(Live(), Dead(), r, 0, r, Clean, pledged, lo, hi) && hi <= ADDRESS_LIMIT
    {
      hide Walk, Lingering, Pledged, Trail;
      CallStarts(Live(), r, Dead(), pledged, lo, hi);
      TrailStarts(Live(), Dead(), r);
    }

    lemma EntryAt(s0: seq<Entry>, dead0: seq<Entry>, r: Request, i: nat, c: Request, phase: Phase, pledged: iset<nat>,
        lo: nat, hi: nat)
      requires At(s0, dead0, r, i, c, phase, pledged, lo, hi) && i < size
      ensures slots[i].length > 0
    {
      hide Lingering, Pledged, Ahead, Verdict, Budget, Trail;
      assert Live()[i] == slots[i];
    }

    lemma EndsAt(s0: seq<Entry>, dead0: seq<Entry>, r: Request, c: Request, phase: Phase, pledged: iset<nat>, lo: nat,
        hi: nat)
      requires At(s0, dead0, r, size, c, phase, pledged, lo, hi) && c.length == 0
      ensures Done(s0, dead0, r, pledged, lo, hi) && (r.length > 0 ==> Busy(s0, r) && !Commands(s0, r))
    {
      hide Walk, Post, Lingering, Pledged, Trail, Traced;
      WalkEnds(s0, r, Live(), c, phase, Dead(), pledged, lo, hi);
      if r.length > 0 && !Busy(s0, r) {
        WalkUnclaimed(s0, r, Live(), c, phase, lo, hi);
      }
      TrailEnds(s0, dead0, r, Live(), Dead(), size, c, phase, lo, hi);
    }

    lemma NeedAt(s0: seq<Entry>, dead0: seq<Entry>, r: Request, c: Request, phase: Phase, pledged: iset<nat>, lo: nat,
        hi: nat)
      requires At(s0, dead0, r, size, c, phase, pledged, lo, hi) && c.length > 0
      ensures size + 1 <= Need(s0, r)
      ensures r.length > 0 && !Busy(s0, r) ==> Live() == s0 && c == r
    {
      hide Walk, Lingering, Pledged, Trail;
      WalkNeed(s0, r, Live(), c, phase, lo, hi);
      if r.length > 0 && !Busy(s0, r) {
        WalkUnclaimed(s0, r, Live(), c, phase, lo, hi);
      }
    }

    /** `pmm_map_set`.  The ghost parameters bound the region the call relies on: the map is
        tidy from `lo` on, no entry crosses `hi`, and the `pledged` addresses are about to be
        described by the caller. */
    method MapSet(base0: nat, length0: nat, kind: Kind, force: bool, ghost pledged: iset<nat>, ghost lo: nat,
        ghost hi: nat)
      returns (o: Outcome)
      requires Shape() && Callable(Live(), Request(base0, length0, kind, force), Dead(), pledged, lo, hi)
      modifies this`size, slots
      ensures Shape()
      ensures o.Settled? ==> Done(old(Live()), old(Dead()), Request(base0, length0, kind, force), pledged, lo, hi)
      ensures !o.Settled? ==> size == MAX_ENTRIES
      ensures !o.Settled? && Commands(old(Live()), Request(base0, length0, kind, force)) ==>
          Need(old(Live()), Request(base0, length0, kind, force)) > MAX_ENTRIES
      ensures length0 > 0 && Commands(old(Live()), Request(base0, length0, kind, force)) ==>
          (o.PastEnd? <==> ReachesPast(old(Live()), Request(base0, length0, kind, force)))
      ensures o.PastEnd? ==>
          || NothingFrom(old(Live()), base0 + length0)
          || Straddled(old(Live()), Request(base0, length0, kind, force))
      decreases Weight(Live(), Request(base0, length0, kind, force)), length0, 1
    {
      hide Walk, Post, Lingering, Pledged, Weight, Need, Callable, Hole, At, Done, Busy, ReadsPast, Commands,
          ReachesPast, Straddled, NothingFrom;
      ghost var s0, dead0, r := Live(), Dead(), Request(base0, length0, kind, force);
      var base: nat, length: nat, i: nat := base0, length0, 0;
      ghost var phase := Clean;
      StartsAt(r, pledged, lo, hi);
      while i < size
        invariant Shape() && i <= size
        invariant At(s0, dead0, r, i, Request(base, length, kind, force), phase, pledged, lo, hi)
        decreases if Meeting(Live(), i, Request(base, length, kind, force)) then 1 else 0, size - i
      {
        ghost var c := Request(base, length, kind, force);
        var e := slots[i];
        EntryAt(s0, dead0, r, i, c, phase, pledged, lo, hi);
        var override := Rank(kind) > Rank(e.kind) || force;
        var overlapStart, overlapEnd := false, false;
        if base > e.base && base < e.base + e.length { overlapStart := true; }
        if base + length > e.base && base + length < e.base + e.length { overlapEnd := true; }

        if overlapStart && overlapEnd {
          if !override {
            StandsAt(s0, dead0, r, i, c, phase, pledged, lo, hi);
            return Settled;
          }
          o := SplitSlot(i, Request(base, length, kind, force), s0, dead0, r, phase, pledged, lo, hi);
          if !o.Settled? { return; }
          phase := Clean;
          i := i + 1;
        } else if overlapStart {
          var amount := (e.base + e.length) - base;
          if override {
            phase := TrimSlot(i, Entry(e.base, e.length - amount, e.kind), s0, dead0, r, c, phase, pledged, lo, hi);
          } else {
            length := length - amount;
            base := base + amount;
            phase := NarrowAt(s0, dead0, r, i, c, phase, Request(base, length, kind, force), pledged, lo, hi);
          }
          assert !(base < slots[i].base) && base != slots[i].base;
          i := i + 1;
        } else if overlapEnd {
          var amount := (base + length) - e.base;
          if override {
            phase := TrimSlot(i, Entry(e.base + amount, e.length - amount, e.kind), s0, dead0, r, c, phase, pledged,
                lo, hi);
          } else {
            length := length - amount;
            phase := NarrowAt(s0, dead0, r, i, c, phase, Request(base, length, kind, force), pledged, lo, hi);
          }
          assert !(base + length > slots[i].base + slots[i].length)
              && !(base == slots[i].base && length == slots[i].length);
          i := i + 1;
        } else if base < e.base && base + length > e.base + e.length {
          if override {
            phase := DropSlot(i, s0, dead0, r, c, phase, pledged, lo, hi);
          } else {
            o := SetHalves(i, Request(base, length, kind, force), s0, dead0, r, phase, pledged, lo, hi);
            return;
          }
        } else if base == e.base && length == e.length {
          if !override {
            StandsAt(s0, dead0, r, i, c, phase, pledged, lo, hi);
            return Settled;
          }
          phase := DropSlot(i, s0, dead0, r, c, phase, pledged, lo, hi);
        } else {
          // Either the entry does not meet the request, or it lies inside it and shares
          // exactly one endpoint with it.
          phase := PastAt(s0, dead0, r, i, c, phase, pledged, lo, hi);
          i := i + 1;
        }
      }
      ghost var c := Request(base, length, kind, force);
      if length == 0 {
        EndsAt(s0, dead0, r, c, phase, pledged, lo, hi);
        return Settled;
      }
      NeedAt(s0, dead0, r, c, phase, pledged, lo, hi);
      o := PlaceRest(Request(base, length, kind, force), s0, dead0, r, phase, pledged, lo, hi);
    }
  
    // -------------------------------------------------------------- the interface

    /** `pmm_map_set` on a well-formed map.  It fails only when the array is full: then it
        panics, or has looked past the array's end first. */
    method Set(base: nat, length: nat, kind: Kind, force: bool) returns (o: Outcome)
      requires Valid() && base + length < ADDRESS_LIMIT
      modifies this`size, slots
      ensures Shape()
      ensures o.Settled? ==> Effect(old(Live()), Request(base, length, kind, force), Live())
      ensures o.Settled? ==> (Valid() <==> Fits(old(Live()), Request(base, length, kind, force)))
      ensures o.Settled? && Valid() ==> Prevails(old(Live()), base, length, kind, force, Live())
      ensures !o.Settled? ==> size == MAX_ENTRIES
      ensures !o.Settled? && Commands(old(Live()), Request(base, length, kind, force)) ==>
          Need(old(Live()), Request(base, length, kind, force)) > MAX_ENTRIES
      ensures o.Settled? ==> Traced(old(Live()), old(Dead()), Request(base, length, kind, force), Live(), Dead())
      ensures length > 0 && Commands(old(Live()), Request(base, length, kind, force)) ==>
          (o.PastEnd? <==> ReachesPast(old(Live()), Request(base, length, kind, force)))
      ensures o.PastEnd? ==>
          || NothingFrom(old(Live()), base + length)
          || Straddled(old(Live()), Request(base, length, kind, force))
      ensures o.Settled? && Valid() && old(Unspoilt()) ==>
          (kind == Bad && Busy(old(Live()), Request(base, length, kind, force))) || Unspoilt()
    {
      hide Post, Fits, Effect, Tidy, Busy, Straddled, Commands, ReachesPast, NothingFrom, Traced, Need, NoneSpoilt,
          Lingering, Prevails, Carried;
      ghost var s, dead, r := Live(), Dead(), Request(base, length, kind, force);
      SetCallable(s, r, dead);
      o := MapSet(base, length, kind, force, iset{}, 0, ADDRESS_LIMIT);
      if o.Settled? {
        PostEffect(s, r, Live());
        EffectFits(s, r, Live());
        if Fits(s, r) {
          EffectCarried(s, r, Live());
          RequestPrevails(s, r, Live());
        }
        if Fits(s, r) && NoneSpoilt(s, dead) && (kind != Bad || !Busy(s, r)) {
          EffectCarried(s, r, Live());
          TracedSpoilsNone(s, dead, r, Live(), Dead());
        }
      }
    }

    /** `pmm_map_add` */
    method Add(base: nat, length: nat, kind: Kind) returns (o: Outcome)
      requires Valid() && base + length < ADDRESS_LIMIT
      modifies this`size, slots
      ensures Shape()
      ensures o.Settled? ==> Effect(old(Live()), Request(base, length, kind, false), Live())
      ensures o.Settled? ==> (Valid() <==> Fits(old(Live()), Request(base, length, kind, false)))
      ensures o.Settled? ==> Traced(old(Live()), old(Dead()), Request(base, length, kind, false), Live(), Dead())
      ensures length == 0 ==> o.Settled? && slots[..] == old(slots[..]) && size == old(size)
      ensures o.Settled? && Valid() ==> Prevails(old(Live()), base, length, kind, false, Live())
      ensures !o.Settled? ==> size == MAX_ENTRIES
      ensures !o.Settled? && Commands(old(Live()), Request(base, length, kind, false)) ==>
          Need(old(Live()), Request(base, length, kind, false)) > MAX_ENTRIES
      ensures Commands(old(Live()), Request(base, length, kind, false)) ==>
          (o.PastEnd? <==> length > 0 && ReachesPast(old(Live()), Request(base, length, kind, false)))
      ensures o.PastEnd? ==>
          || NothingFrom(old(Live()), base + length)
          || Straddled(old(Live()), Request(base, length, kind, false))
      ensures o.Settled? && Valid() && old(Unspoilt()) ==>
          (kind == Bad && Busy(old(Live()), Request(base, length, kind, false))) || Unspoilt()
    {
      hide Effect, Fits, Traced, Commands, ReachesPast, NothingFrom, Straddled, Busy, NoneSpoilt, Tidy,
          Lingering, Prevails, Carried;
      if length == 0 {
        EffectOfNothing(Live(), Request(base, length, kind, false));
        TracedNothing(Live(), Dead(), Request(base, length, kind, false));
        EffectCarried(Live(), Request(base, length, kind, false), Live());
        RequestPrevails(Live(), Request(base, length, kind, false), Live());
        return Settled;
      }
      o := Set(base, length, kind, false);
    }

    /** `pmm_alloc_at` */
    method AllocAt(address: nat, pageCount: nat, kind: Kind) returns (o: Outcome, found: bool)
      requires Valid() && address + pageCount * PAGE < ADDRESS_LIMIT
      modifies this`size, slots
      ensures o.Settled? ==> Valid()
      ensures found <==> FreeBlock(old(Live()), address, pageCount * PAGE)
      ensures !found ==> o.Settled? && Live() == old(Live()) && Dead() == old(Dead())
      ensures o.Settled? && found ==> Effect(old(Live()), Request(address, pageCount * PAGE, kind, true), Live())
      ensures o.Settled? && found ==> Prevails(old(Live()), address, 4096 * pageCount, kind, true, Live())
      ensures o.Settled? && found ==> Fits(old(Live()), Request(address, pageCount * PAGE, kind, true))
      ensures !o.Settled? ==> Shape() && size == MAX_ENTRIES && old(size) + 2 > MAX_ENTRIES
      ensures found && pageCount > 0 ==>
          (o.PastEnd? <==> ReachesPast(old(Live()), Request(address, pageCount * PAGE, kind, true)))
      ensures o.Settled? && old(Unspoilt()) && kind != Bad ==> Unspoilt()
    {
      hide Effect, Fits, Traced, ReachesPast, NothingFrom, Straddled, Busy, NoneSpoilt, Lingering, Prevails;
      var length := pageCount * PAGE;
      var i := 0;
      while i < size
        invariant i <= size
        invariant forall j :: 0 <= j < i ==> !Encloses(Live()[j], address, length)
      {
        if slots[i].kind != Free || slots[i].base > address || slots[i].base + slots[i].length < address + length {
          i := i + 1;
          continue;
        }
        FitsWithin(Live(), Request(address, length, kind, true), i);
        ForcedCommands(Live(), Request(address, length, kind, true));
        assert Live()[i] in Live() && Encloses(Live()[i], address, length);
        o := Set(address, length, kind, true);
        return o, true;
      }
      return Settled, false;
    }

    /** The lowest place for a block, found as `pmm_alloc_ext` looks for it. */
    method FindFree(length: nat, alignment: nat) returns (found: bool, ueBase: nat)
      requires Valid() && alignment > 0
      requires forall e :: e in Live() && e.kind == Free ==> e.base + alignment <= ADDRESS_LIMIT
      ensures found ==> LowestFit(Live(), length, alignment, ueBase)
      ensures !found ==> forall y: nat :: y % alignment == 0 ==> !CanHold(Live(), y, length)
    {
      hide Lingering;
      var i := 0;
      while i < size
        invariant i <= size
        invariant forall j, y: nat :: 0 <= j < i && y % alignment == 0 ==> !HoldsAt(Live()[j], y, length)
      {
        ghost var e := Live()[i];
        if slots[i].kind != Free {
          i := i + 1;
          continue;
        }
        ueBase := Ceil(slots[i].base, alignment);
        CeilLeast(slots[i].base, alignment);
        if ueBase >= slots[i].base + slots[i].length {
          i := i + 1;
          continue;
        }
        var ueLength := slots[i].length - (ueBase - slots[i].base);
        if ueLength < length {
          i := i + 1;
          continue;
        }
        LowestFound(Live(), i, length, alignment, ueBase);
        return true, ueBase;
      }
      return false, 0;
    }

    /** `pmm_alloc_ext` */
    method AllocExt(pageCount: nat, alignment: nat, kind: Kind) returns (r: AllocResult)
      requires Valid() && alignment > 0 && pageCount * PAGE < ADDRESS_LIMIT
      requires forall e :: e in Live() && e.kind == Free ==> e.base + alignment <= ADDRESS_LIMIT
      modifies this`size, slots
      ensures r.Address? ==> Valid()
      ensures r.Address? ==> LowestFit(old(Live()), pageCount * PAGE, alignment, r.address)
      ensures r.Address? ==> Effect(old(Live()), Request(r.address, pageCount * PAGE, kind, true), Live())
      ensures r.Address? ==> Fits(old(Live()), Request(r.address, pageCount * PAGE, kind, true))
      ensures r.Address? ==> Prevails(old(Live()), r.address, 4096 * pageCount, kind, true, Live())
      ensures r.OutOfMemory? ==> Valid() && Live() == old(Live())
      ensures r.OutOfMemory? ==> forall y: nat :: y % alignment == 0 ==> !CanHold(Live(), y, pageCount * PAGE)
      ensures r.MapFull? || r.ReadPast? ==> size == MAX_ENTRIES && old(size) + 2 > MAX_ENTRIES
      ensures r.MapFull? || r.ReadPast? ==> exists x: nat ::
          LowestFit(old(Live()), pageCount * PAGE, alignment, x)
          && Need(old(Live()), Request(x, pageCount * PAGE, kind, true)) > MAX_ENTRIES
      ensures pageCount > 0 ==> (r.ReadPast? <==> exists x: nat ::
          LowestFit(old(Live()), pageCount * PAGE, alignment, x)
          && ReachesPast(old(Live()), Request(x, pageCount * PAGE, kind, true)))
      ensures r.Address? ==>
          Traced(old(Live()), old(Dead()), Request(r.address, pageCount * PAGE, kind, true), Live(), Dead())
      ensures r.OutOfMemory? ==> Dead() == old(Dead())
      ensures r.Address? && old(Unspoilt()) && kind != Bad ==> Unspoilt()
      ensures !r.Address? && alignment == PAGE ==> Exhausted(pageCount)
    {
      hide Effect, Fits, CanHold, Need, Lingering, Tidy, Busy, ReachesPast, Straddled, NothingFrom, Traced, NoneSpoilt,
          Prevails;
      var length := pageCount * PAGE;
      var found, ueBase := FindFree(length, alignment);
      if !found {
        NoneLowest(Live(), length, alignment);
        return OutOfMemory;
      }
      LowestHeld(Live(), length, alignment, ueBase);
      HeldFits(Live(), ueBase, length, Request(ueBase, length, kind, true));
      ForcedCommands(Live(), Request(ueBase, length, kind, true));
      var o := Set(ueBase, length, kind, true);
      match o
      case Settled => return Address(ueBase);
      case ArrayFull => return MapFull;
      case PastEnd => return ReadPast;
    }

    /** `pmm_alloc` */
    method Alloc(pageCount: nat) returns (r: AllocResult)
      requires Valid() && pageCount * PAGE < ADDRESS_LIMIT
      requires forall e :: e in Live() && e.kind == Free ==> e.base + PAGE <= ADDRESS_LIMIT
      modifies this`size, slots
      ensures r.Address? ==> Valid()
      ensures r.Address? ==> LowestFit(old(Live()), pageCount * PAGE, PAGE, r.address)
      ensures r.Address? ==> Effect(old(Live()), Request(r.address, pageCount * PAGE, Allocated, true), Live())
      ensures r.Address? ==> Fits(old(Live()), Request(r.address, pageCount * PAGE, Allocated, true))
      ensures r.Address? ==> Prevails(old(Live()), r.address, 4096 * pageCount, Allocated, true, Live())
      ensures r.OutOfMemory? ==> Valid() && Live() == old(Live())
      ensures r.OutOfMemory? ==> forall y: nat :: y % PAGE == 0 ==> !CanHold(Live(), y, pageCount * PAGE)
      ensures r.MapFull? || r.ReadPast? ==> size == MAX_ENTRIES && old(size) + 2 > MAX_ENTRIES
      ensures !r.Address? ==> Exhausted(pageCount) && ClaimRefused(old(Live()), pageCount)
      ensures pageCount > 0 ==> (r.ReadPast? <==> ClaimReaches(old(Live()), pageCount))
      ensures r.Address? ==>
          Traced(old(Live()), old(Dead()), Request(r.address, pageCount * PAGE, Allocated, true), Live(), Dead())
      ensures r.Address? && old(Unspoilt()) ==> Unspoilt()
    {
      hide Effect, Fits, Need, Traced, ReachesPast, NoneSpoilt, Prevails;
      r := AllocExt(pageCount, PAGE, Allocated);
    }

    /** `pmm_free` */
    method FreePages(address: nat, pageCount: nat) returns (o: Outcome)
      requires Valid() && address + pageCount * PAGE < ADDRESS_LIMIT
      modifies this`size, slots
      ensures Shape()
      ensures o.Settled? ==> Effect(old(Live()), Request(address, pageCount * PAGE, Free, true), Live())
      ensures o.Settled? ==> (Valid() <==> Fits(old(Live()), Request(address, pageCount * PAGE, Free, true)))
      ensures o.Settled? && Valid() ==> Prevails(old(Live()), address, 4096 * pageCount, Free, true, Live())
      ensures !o.Settled? ==> size == MAX_ENTRIES && old(size) + 2 > MAX_ENTRIES
      ensures pageCount > 0 ==>
          (o.PastEnd? <==> ReachesPast(old(Live()), Request(address, pageCount * PAGE, Free, true)))
      ensures o.Settled? && Valid() && old(Unspoilt()) ==> Unspoilt()
    {
      hide Effect, Fits, Traced, ReachesPast, NothingFrom, Straddled, Busy, NoneSpoilt, Tidy, Lingering, Prevails;
      ForcedCommands(Live(), Request(address, pageCount * PAGE, Free, true));
      o := Set(address, pageCount * PAGE, Free, true);
    }

    /** `pmm_create_snapshot`; no snapshot when the memory manager fails.  With fewer than two
        slots unused the copy runs past the end of the array. */
    method CreateSnapshot() returns (r: Snapshot)
      requires Valid() && forall e :: e in Live() && e.kind == Free ==> e.base + PAGE <= ADDRESS_LIMIT
      modifies this`size, slots
      ensures r.HasBlock() ==>
          && Valid() && r.phys != 0 && r.bytes == SnapshotPages(old(size)) * PAGE && r.bytes > 0
          && LowestFit(old(Live()), r.bytes, PAGE, r.phys)
          && Effect(old(Live()), Request(r.phys, r.bytes, Allocated, true), Live())
          && Fits(old(Live()), Request(r.phys, r.bytes, Allocated, true))
          && Traced(old(Live()), old(Dead()), Request(r.phys, r.bytes, Allocated, true), Live(), Dead())
      ensures r.Taken? ==> old(size) + 2 <= MAX_ENTRIES && r.entries == slots[..old(size) + 2]
      ensures r.Taken? ==> 24 * |r.entries| <= r.bytes < 24 * |r.entries| + 4096
      ensures r.Taken? ==> SnapshotOf(r.entries, Live()) && Sources(r.entries, old(Live()), old(Dead()))
      ensures r.HasBlock() ==> (r.Overrun? <==> Overruns(old(Live())))
      ensures r.Astray? <==> ClaimReaches(old(Live()), SnapshotPages(old(size)))
      ensures !r.HasBlock() ==> Exhausted(SnapshotPages(old(size))) || SnapshotRefused(old(Live()))
      ensures !r.HasBlock() ==> SnapshotRefused(old(Live())) || ClaimRefused(old(Live()), SnapshotPages(old(size)))
      ensures r.HasBlock() && old(Unspoilt()) ==> Unspoilt()
    {
      hide Effect, LowestFit, Fits, Tidy, Lingering, CanHold, SnapshotOf, Need, Traced, ReachesPast, NoneSpoilt,
          Sources;
      ghost var s, dead := Live(), Dead();
      var count := size + 2;
      var bytes := Ceil(ENTRY_SIZE * count, PAGE);
      SnapshotBytes(size);
      CeilLeast(ENTRY_SIZE * count, PAGE);
      var p := Alloc(bytes / PAGE);
      if p.ReadPast? {
        return Astray;
      }
      if !p.Address? || p.address == 0 {
        return NoSnapshot;
      }
      EffectSize(s, Request(p.address, bytes, Allocated, true), Live());
      CeilMono(ENTRY_SIZE * size, ENTRY_SIZE * count, PAGE);
      if Ceil(ENTRY_SIZE * size, PAGE) > bytes {
        assert false;
      }
      if count > MAX_ENTRIES {
        return Overrun(p.address, bytes);
      }
      SnapshotSlots(slots[..], size, count);
      SnapshotSources(s, dead, p.address, bytes, Live(), Dead(), slots[..count]);
      return Taken(slots[..count], p.address, bytes);
    }

    /** `pmm_free_snapshot` */
    method FreeSnapshot(snapshot: Snapshot) returns (o: Outcome)
      requires Valid() && snapshot.HasBlock()
      requires snapshot.phys + snapshot.bytes < ADDRESS_LIMIT && snapshot.bytes % PAGE == 0
      modifies this`size, slots
      ensures Shape()
      ensures o.Settled? ==> Effect(old(Live()), Request(snapshot.phys, snapshot.bytes, Free, true), Live())
      ensures o.Settled? ==> (Valid() <==> Fits(old(Live()), Request(snapshot.phys, snapshot.bytes, Free, true)))
      ensures !o.Settled? ==> size == MAX_ENTRIES
      ensures snapshot.bytes > 0 ==>
          (o.PastEnd? <==> ReachesPast(old(Live()), Request(snapshot.phys, snapshot.bytes, Free, true)))
      ensures o.Settled? && Valid() && old(Unspoilt()) ==> Unspoilt()
    {
      PagesOf(snapshot.bytes);
      o := FreePages(snapshot.phys, snapshot.bytes / PAGE);
    }

    /** The boot loader's memory map is added range by range, up to the first range that does
        not fit. */
    method Feed(ranges: seq<Entry>) returns (o: Outcome, fed: nat)
      requires Valid() && Live() == []
      requires forall i :: 0 <= i < |ranges| ==> ranges[i].End() < ADDRESS_LIMIT
      modifies this`size, slots
      ensures fed <= |ranges|
      ensures o.Settled? ==> Valid() && Fed(ranges[..fed], Live())
      ensures o.Settled? ==> forall a: nat :: LatestAt(ranges[..fed], Live(), a)
      ensures o.Settled? && fed < |ranges| ==> !Fits(Live(), Addition(ranges[fed]))
      ensures o.Settled? && Unmixed(ranges) ==> fed == |ranges| && (old(Unspoilt()) ==> Unspoilt())
      ensures !o.Settled? ==> size == MAX_ENTRIES
    {
      hide Fits, Tidy, Lingering, Effect, Traced, Commands, ReachesPast, NothingFrom, Straddled, Busy, NoneSpoilt,
          Unmixed;
      FedNothing();
      fed := 0;
      ghost var sparing := Unmixed(ranges) && Unspoilt();
      while fed < |ranges| && Fits(slots[..size], Addition(ranges[fed]))
        invariant fed <= |ranges| && Valid() && Fed(ranges[..fed], Live()) && (sparing ==> Unspoilt())
      {
        ghost var s := Live();
        if Unmixed(ranges) {
          UnmixedUnclaimed(ranges, s, fed);
        }
        o := Add(ranges[fed].base, ranges[fed].length, ranges[fed].kind);
        if !o.Settled? { return; }
        EffectCarried(s, Addition(ranges[fed]), Live());
        FedNext(ranges, s, fed, Live());
        fed := fed + 1;
      }
      if Unmixed(ranges) && fed < |ranges| {
        UnmixedUnclaimed(ranges, Live(), fed);
      }
      FedLatest(ranges[..fed], Live());
      return Settled, fed;
    }

    /** Any run of allocations and whole-block frees.  Every forced request of the run fits,
        and the map stays the initial one with the outstanding blocks laid over it. */
    method Run(ops: seq<Op>) returns (ok: bool, blocks: seq<Block>)
      requires Valid() && forall op :: op in ops ==> Admissible(op, Live())
      modifies this`size, slots
      ensures ok ==> Valid() && Ledger(old(Live()), blocks, Live())
      ensures ok && old(Unspoilt()) && (forall op :: op in ops ==> Sparing(op)) ==> Unspoilt()
      ensures !ok ==> Shape() && (size == MAX_ENTRIES || exists op :: op in ops && Starved(op, Live()))
    {
      hide Ledger, Tidy, Lingering, NoneSpoilt, Admissible;
      ghost var s0, sparing := Live(), Unspoilt() && forall op :: op in ops ==> Sparing(op);
      blocks := [];
      LedgerStarts(s0);
      for i := 0 to |ops|
        invariant Valid() && Ledger(s0, blocks, Live()) && (sparing ==> Unspoilt())
      {
        assert ops[i] in ops;
        ok, blocks := RunOne(ops[i], blocks, s0);
        if !ok { return; }
      }
      return true, blocks;
    }

    method RunOne(op: Op, blocks: seq<Block>, ghost s0: seq<Entry>) returns (ok: bool, blocks': seq<Block>)
      requires Valid() && Ledger(s0, blocks, Live()) && Admissible(op, s0)
      modifies this`size, slots
      ensures ok ==> Valid() && Ledger(s0, blocks', Live())
      ensures ok && old(Unspoilt()) && Sparing(op) ==> Unspoilt()
      ensures !ok ==> Shape() && (size == MAX_ENTRIES || Starved(op, Live()))
    {
      hide Effect, Ledger, Lingering, Tidy, Fits, CanHold, Traced, ReachesPast, NoneSpoilt;
      ghost var s := Live();
      match op
      case Claim(pages, alignment, kind) =>
        ClaimAdmissible(s0, blocks, s, pages, alignment, kind);
        var r := AllocExt(pages, alignment, kind);
        if !r.Address? { return false, []; }
        blocks' := blocks + [Block(r.address, pages, kind)];
        LedgerClaimed(s0, blocks, s, Block(r.address, pages, kind), Live());
        return true, blocks';
      case ClaimAt(address, pages, kind) =>
        var o, found := AllocAt(address, pages, kind);
        if !o.Settled? { return false, []; }
        if !found || pages == 0 {
          if found { EffectEmpty(s, Request(address, pages * PAGE, kind, true), Live()); }
          return true, blocks;
        }
        FreeBlockHeld(s, address, pages * PAGE);
        blocks' := blocks + [Block(address, pages, kind)];
        LedgerClaimed(s0, blocks, s, Block(address, pages, kind), Live());
        return true, blocks';
      case Release(j) =>
        if j >= |blocks| { return true, blocks; }
        ReleaseAdmissible(s0, blocks, s, j);
        var o := FreePages(blocks[j].base, blocks[j].pages);
        if !o.Settled? { return false, []; }
        LedgerReleased(s0, blocks, s, j, Live());
        return true, Without(blocks, j);
    }
  }

  /** Size in bytes of one entry of the array. */
  const ENTRY_SIZE: nat := 24

  /** Pages for a copy of the array. */
  function SnapshotPages(size: nat): nat { Ceil(ENTRY_SIZE * (size + 2), PAGE) / PAGE }

  /** A snapshot panics when its block would be at address zero. */
  ghost predicate SnapshotRefused(live: seq<Entry>) { LowestFit(live, SnapshotPages(|live|) * PAGE, PAGE, 0) }

  /** The copy of the array runs past its end. */
  ghost predicate Overruns(live: seq<Entry>) { |live| > MAX_ENTRIES - 2 }

  /** No block of so many pages can be claimed from the map: there is no room for it, or too
      little room in the array. */
  ghost predicate ClaimRefused(live: seq<Entry>, pages: nat) {
    NoRoom(live, pages) || exists x: nat ::
      LowestFit(live, pages * PAGE, PAGE, x) && Need(live, Request(x, pages * PAGE, Allocated, true)) > MAX_ENTRIES
  }

  /** Claiming so many pages comes to look behind the array. */
  ghost predicate ClaimReaches(live: seq<Entry>, pages: nat) {
    exists x: nat :: LowestFit(live, pages * PAGE, PAGE, x)
        && ReachesPast(live, Request(x, pages * PAGE, Allocated, true))
  }

  /** A copy of the array in a block of its own, or one whose copying ran past the array. */
  datatype Snapshot =
    | Taken(entries: seq<Entry>, phys: nat, bytes: nat)
    | Overrun(phys: nat, bytes: nat)
    | Astray      // the claim of the block looked behind the array
    | NoSnapshot
  {
    predicate HasBlock() { Taken? || Overrun? }
  }

  /** A copy of the live entries, followed by entries that describe nothing new. */
  ghost predicate SnapshotOf(entries: seq<Entry>, live: seq<Entry>) {
    && |live| <= |entries| && entries[..|live|] == live
    && (forall e :: e in entries ==> e == UNUSED || e.length > 0)
    && (forall e, a :: e in entries && e.Has(a) ==> Cover(live, a) != [])
  }

  lemma SnapshotSlots(all: seq<Entry>, size: nat, count: nat)
    requires size <= count <= |all| && WellFormed(all[..size]) && Lingering(all[size..], all[..size], iset{})
    ensures SnapshotOf(all[..count], all[..size])
  {
    var live := all[..size];
    forall e, a: nat | e in all[..count] && e.Has(a) ensures Cover(live, a) != [] {
      var j :| 0 <= j < count && all[j] == e;
      if j < size {
        CoverAt(live, j, a);
      } else {
        assert all[size..][j - size] == e;
      }
    }
    forall e | e in all[..count] ensures e == UNUSED || e.length > 0 {
      var j :| 0 <= j < count && all[j] == e;
      assert if j < size then live[j] == e else all[size..][j - size] == e;
    }
    assert all[..count][..size] == live;
  }

  lemma SnapshotSources(s: seq<Entry>, dead: seq<Entry>, c: nat, bytes: nat, t: seq<Entry>, dead': seq<Entry>,
      entries: seq<Entry>)
    requires WellFormed(s) && LowestFit(s, bytes, PAGE, c) && entries <= t + dead'
    requires var r := Request(c, bytes, Allocated, true); Effect(s, r, t) && Fits(s, r) && Traced(s, dead, r, t, dead')
    ensures Sources(entries, s, dead)
  {
    hide Fits, Tidy, Cover, Carried, Shed, Sources, Unwritten, Placed, Swallows;
    var r := Request(c, bytes, Allocated, true);
    EffectCarried(s, r, t);
    LowestHeld(s, bytes, PAGE, c);
    forall a: nat | r.In(a) ensures Cover(s, a) == [Free] {
      HeldFree(s, c, bytes, a);
    }
    CopySources(s, dead, r, t, dead', entries);
  }

  lemma SnapshotBytes(size: nat)
    requires size <= MAX_ENTRIES
    ensures var bytes := Ceil(ENTRY_SIZE * (size + 2), PAGE);
            bytes % PAGE == 0 && bytes / PAGE * PAGE == bytes && 0 < bytes < ADDRESS_LIMIT
  {
    CeilLeast(ENTRY_SIZE * (size + 2), PAGE);
  }

  lemma CeilMono(x: nat, y: nat, alignment: nat)
    requires x <= y && alignment > 0
    ensures Ceil(x, alignment) <= Ceil(y, alignment)
  {
    CeilLeast(x, alignment);
    CeilLeast(y, alignment);
  }

  lemma EffectSize(s: seq<Entry>, r: Request, t: seq<Entry>)
    requires Effect(s, r, t) && r.force
    ensures |t| <= |s| + 2
  {
  }

  lemma PagesOf(bytes: nat)
    requires bytes % PAGE == 0
    ensures bytes / PAGE * PAGE == bytes
  {
  }

  // ---------------------------------------------------------------- runs

  datatype Op =
    | Claim(pages: nat, alignment: nat, kind: Kind)
    | ClaimAt(address: nat, pages: nat, kind: Kind)
    | Release(index: nat)

  /** Nobody claims memory as free, and no address computed for the operation overflows. */
  ghost predicate Admissible(op: Op, s0: seq<Entry>) {
    match op
    case Claim(pages, alignment, kind) =>
      && kind != Free && alignment > 0 && pages * PAGE < ADDRESS_LIMIT
      && forall a: nat :: Cover(s0, a) != [] ==> a + alignment <= ADDRESS_LIMIT
    case ClaimAt(address, pages, kind) => kind != Free && address + pages * PAGE < ADDRESS_LIMIT
    case Release(_) => true
  }

  /** There is no place for the block an operation claims. */
  ghost predicate Starved(op: Op, live: seq<Entry>) {
    op.Claim? && op.alignment > 0 && forall y: nat :: y % op.alignment == 0 ==> !CanHold(live, y, op.pages * PAGE)
  }

  lemma ClaimAdmissible(s0: seq<Entry>, blocks: seq<Block>, s: seq<Entry>, pages: nat, alignment: nat, kind: Kind)
    requires Ledger(s0, blocks, s) && Admissible(Claim(pages, alignment, kind), s0)
    ensures forall e :: e in s && e.kind == Free ==> e.base + alignment <= ADDRESS_LIMIT
  {
    forall e | e in s ensures e.base + alignment <= ADDRESS_LIMIT {
      var j :| 0 <= j < |s| && s[j] == e;
      CoverAt(s, j, e.base);
      LedgerCovers(s0, blocks, s, e.base);
    }
  }

  lemma ReleaseAdmissible(s0: seq<Entry>, blocks: seq<Block>, s: seq<Entry>, j: nat)
    requires Ledger(s0, blocks, s) && j < |blocks|
    ensures Fits(s, blocks[j].Release())
    ensures blocks[j].base + blocks[j].pages * PAGE < ADDRESS_LIMIT
  {
    LedgerFits(s0, blocks, s, j);
  }

  lemma FreeBlockHeld(s: seq<Entry>, address: nat, length: nat)
    requires FreeBlock(s, address, length) && length > 0
    ensures CanHold(s, address, length)
  {
    var e :| e in s && Encloses(e, address, length);
    assert HoldsAt(e, address, length);
  }

  lemma EffectEmpty(s: seq<Entry>, r: Request, t: seq<Entry>)
    requires Effect(s, r, t) && r.length == 0
    ensures t == s
  {
  }

  lemma LedgerClaimed(s0: seq<Entry>, blocks: seq<Block>, s: seq<Entry>, b: Block, t: seq<Entry>)
    requires Ledger(s0, blocks, s) && b.kind != Free && CanHold(s, b.base, b.Length())
    requires Effect(s, b.Claim(), t) && Fits(s, b.Claim())
    ensures Ledger(s0, blocks + [b], t)
  {
    LedgerClaim(s0, blocks, s, b, t);
  }

  lemma LedgerReleased(s0: seq<Entry>, blocks: seq<Block>, s: seq<Entry>, j: nat, t: seq<Entry>)
    requires Ledger(s0, blocks, s) && j < |blocks|
    requires Effect(s, blocks[j].Release(), t) && Fits(s, blocks[j].Release())
    ensures Ledger(s0, Without(blocks, j), t)
  {
    LedgerRelease(s0, blocks, s, j, t);
  }

  ghost predicate NoRoom(live: seq<Entry>, pages: nat) {
    forall y: nat :: y % PAGE == 0 ==> !CanHold(live, y, pages * PAGE)
  }

  /** Where a block was claimed, or why not: no room for it, a full array, or a look behind it. */
  datatype AllocResult = Address(address: nat) | OutOfMemory | MapFull | ReadPast

  /** The operation claims no block as bad memory. */
  predicate Sparing(op: Op) { !op.Release? ==> op.kind != Bad }

  /** A free entry encloses the whole block. */
  ghost predicate Encloses(e: Entry, address: nat, length: nat) {
    e.kind == Free && e.base <= address && address + length <= e.End()
  }

  ghost predicate FreeBlock(s: seq<Entry>, address: nat, length: nat) {
    exists e :: e in s && Encloses(e, address, length)
  }

  lemma SetCallable(s: seq<Entry>, r: Request, dead: seq<Entry>)
    requires WellFormed(s) && Lingering(dead, s, iset{}) && r.End() < ADDRESS_LIMIT
    ensures Callable(s, r, dead, iset{}, 0, ADDRESS_LIMIT) && Need(s, r) <= |s| + 2
  {
    LingeringStep(dead, s, iset{}, dead, s, Hole(r, iset{}));
    forall e | e in s ensures e.End() <= ADDRESS_LIMIT {
      var j :| 0 <= j < |s| && s[j] == e;
    }
  }

  lemma TracedSpoilsNone(s: seq<Entry>, dead: seq<Entry>, r: Request, t: seq<Entry>, dead': seq<Entry>)
    requires Traced(s, dead, r, t, dead') && Lingering(dead, s, iset{}) && Carried(s, r, t)
    requires NoneSpoilt(s, dead) && (r.kind != Bad || !Busy(s, r))
    ensures NoneSpoilt(t, dead')
  {
    hide NoneSpoilt, Busy, Carried, Shed, Unwritten, Swallows, Placed;
    NoneSpoiltKept(s, dead, r, t, dead');
  }

  lemma EffectFits(s: seq<Entry>, r: Request, t: seq<Entry>)
    requires Effect(s, r, t)
    ensures WellFormed(t) <==> Fits(s, r)
  {
  }

  lemma EffectCarried(s: seq<Entry>, r: Request, t: seq<Entry>)
    requires Effect(s, r, t) && Fits(s, r)
    ensures WellFormed(t) && Carried(s, r, t)
  {
  }

  lemma TracedNothing(s: seq<Entry>, dead: seq<Entry>, r: Request)
    requires r.length == 0 && |s| + |dead| == MAX_ENTRIES
    ensures Traced(s, dead, r, s, dead)
  {
    if Swallows(s, r) {
      SwallowsCommands(s, r);
    }
  }

  lemma EffectOfNothing(s: seq<Entry>, r: Request)
    requires WellFormed(s) && r.length == 0
    ensures Effect(s, r, s) && Fits(s, r)
  {
    EmptyRoom(s, r);
    EmptyFits(s, r);
  }

  lemma {:induction false} EmptyFits(s: seq<Entry>, r: Request)
    requires r.length == 0 && forall j :: 0 <= j < |s| ==> s[j].length > 0
    ensures Fits(s, r)
  {
    FitsApart(s, 0, r);
    assert s[0..] == s;
  }

  lemma NoneLowest(s: seq<Entry>, length: nat, alignment: nat)
    requires alignment > 0 && forall y: nat :: y % alignment == 0 ==> !CanHold(s, y, length)
    ensures forall x: nat :: !LowestFit(s, length, alignment, x)
  {
  }

  lemma LowestHeld(s: seq<Entry>, length: nat, alignment: nat, x: nat)
    requires alignment > 0 && LowestFit(s, length, alignment, x)
    ensures CanHold(s, x, length)
  {
  }

  /** The first entry with room for the block holds the lowest place for it. */
  lemma LowestFound(s: seq<Entry>, i: nat, length: nat, alignment: nat, x: nat)
    requires WellFormed(s) && i < |s| && alignment > 0 && HoldsAt(s[i], x, length) && x % alignment == 0
    requires forall y: nat :: y % alignment == 0 && s[i].base <= y ==> x <= y
    requires forall j, y: nat :: 0 <= j < i && y % alignment == 0 ==> !HoldsAt(s[j], y, length)
    ensures LowestFit(s, length, alignment, x)
  {
    assert s[i] in s;
    forall y: nat | y % alignment == 0 && CanHold(s, y, length) ensures x <= y {
      var e :| e in s && HoldsAt(e, y, length);
      var j :| 0 <= j < |s| && s[j] == e;
      if j > i {
        assert s[i].End() <= s[j].base;
      }
    }
  }

  lemma CallStarts(s: seq<Entry>, r: Request, dead: seq<Entry>, pledged: iset<nat>, lo: nat, hi: nat)
    requires Callable(s, r, dead, pledged, lo, hi)
    ensures Walk(s, r, s, 0, r, Clean, lo, hi) && Pledged(s, r, pledged) && Lingering(dead, s, Hole(r, pledged))
        && hi <= ADDRESS_LIMIT
  {
    WalkStarts(s, r, lo, hi);
  }

  /** Stopping at an entry that stands and holds all that is left of the request. */
  lemma WalkStands(s0: seq<Entry>, r: Request, s: seq<Entry>, i: nat, c: Request, phase: Phase, dead: seq<Entry>,
      pledged: iset<nat>, lo: nat, hi: nat)
    requires Walk(s0, r, s, i, c, phase, lo, hi) && i < |s| && !c.Overrides(s[i].kind)
    requires Surrounds(s[i], c) || (s[i].base == c.base && c.End() == s[i].End())
    requires Lingering(dead, s, Hole(c, pledged))
    ensures Post(s0, r, s, lo, hi) && Lingering(dead, s, pledged)
  {
    StandsWhole(s0, r, s, i, c, phase, lo, hi);
    forall a: nat | c.In(a) ensures Cover(s, a) != [] {
      CoverAt(s, i, a);
    }
    LingeringStep(dead, s, Hole(c, pledged), dead, s, pledged);
  }

  lemma WalkNarrow(s0: seq<Entry>, r: Request, s: seq<Entry>, i: nat, c: Request, phase: Phase, d: Request,
      dead: seq<Entry>, pledged: iset<nat>, lo: nat, hi: nat)
    returns (next: Phase)
    requires Walk(s0, r, s, i, c, phase, lo, hi) && i < |s| && !c.Overrides(s[i].kind) && Narrowed(s[i], c, d)
    requires Lingering(dead, s, Hole(c, pledged))
    ensures Walk(s0, r, s, i + 1, d, next, lo, hi) && Lingering(dead, s, Hole(d, pledged))
    ensures Meeting(s, i, c)
  {
    next := StepNarrow(s0, r, s, i, c, phase, d, lo, hi);
    NarrowLingering(s, i, c, d, dead, pledged);
  }

  lemma WalkPast(s0: seq<Entry>, r: Request, s: seq<Entry>, i: nat, c: Request, phase: Phase, lo: nat, hi: nat)
      returns (next: Phase)
    requires Walk(s0, r, s, i, c, phase, lo, hi) && i < |s|
    requires Apart(s[i], c) || (Inside(s[i], c) && !(c.base == s[i].base <==> s[i].End() == c.End()))
    ensures Walk(s0, r, s, i + 1, c, next, lo, hi)
    ensures Meeting(s, i + 1, c) ==> Meeting(s, i, c)
  {
    if Apart(s[i], c) {
      next := StepApart(s0, r, s, i, c, phase, lo, hi);
    } else {
      next := StepStuck(s0, r, s, i, c, phase, lo, hi);
    }
  }

  lemma WalkEnds(s0: seq<Entry>, r: Request, s: seq<Entry>, c: Request, phase: Phase, dead: seq<Entry>,
      pledged: iset<nat>, lo: nat, hi: nat)
    requires Walk(s0, r, s, |s|, c, phase, lo, hi) && c.length == 0
    requires Lingering(dead, s, Hole(c, pledged))
    ensures Post(s0, r, s, lo, hi) && Lingering(dead, s, pledged)
  {
    NothingLeft(s0, r, s, c, phase, lo, hi);
    LingeringStep(dead, s, Hole(c, pledged), dead, s, pledged);
  }

  /** A request that meets nothing described is still whole when the walk is over. */
  lemma WalkUnclaimed(s0: seq<Entry>, r: Request, s: seq<Entry>, c: Request, phase: Phase, lo: nat, hi: nat)
    requires Walk(s0, r, s, |s|, c, phase, lo, hi) && r.length > 0 && !Busy(s0, r)
    ensures s == s0 && c == r
  {
    hide Tidy, KeepsBlocks, Ahead, Verdict;
    UnclaimedWhole(s0, r, s, c, lo);
  }

  /** A request that ends at an entry that stands has met something described. */
  lemma WalkMet(s0: seq<Entry>, r: Request, s: seq<Entry>, i: nat, c: Request, phase: Phase, lo: nat, hi: nat)
    requires Walk(s0, r, s, i, c, phase, lo, hi) && i < |s|
    requires Surrounds(s[i], c) || (s[i].base == c.base && c.End() == s[i].End())
    ensures r.length > 0 ==> Busy(s0, r)
    ensures r.length > 0 && !c.Overrides(s[i].kind) && Commands(s0, r) ==> c != r
  {
    hide KeepsBlocks, Ahead, Verdict, Commands;
    if r.length > 0 && !Busy(s0, r) {
      UnclaimedWhole(s0, r, s, c, lo);
      BusyAt(s0, r, s, i, c, lo);
    }
    if c.length > 0 && !c.Overrides(s[i].kind) {
      MetStanding(s0, r, s, i, c, lo);
    }
  }

  lemma WalkNeed(s0: seq<Entry>, r: Request, s: seq<Entry>, c: Request, phase: Phase, lo: nat, hi: nat)
    requires Walk(s0, r, s, |s|, c, phase, lo, hi) && c.length > 0
    ensures |s| + 1 <= Need(s0, r)
  {
    assert !Meeting(s, |s|, c);
  }

  lemma PlacedDone(s0: seq<Entry>, r: Request, s: seq<Entry>, c: Request, phase: Phase, n: nat, t: seq<Entry>,
      dead: seq<Entry>, dead': seq<Entry>, pledged: iset<nat>, lo: nat, hi: nat)
    requires Walk(s0, r, s, |s|, c, phase, lo, hi) && c.length > 0 && hi <= ADDRESS_LIMIT
    requires PlaceAt(s, c, n) && Placed(s, c, n, t)
    requires Lingering(dead, s, Hole(c, pledged)) && (forall d :: d in dead' ==> d in dead)
    ensures Post(s0, r, t, lo, hi) && Lingering(dead', t, pledged)
  {
    StepPlace(s0, r, s, c, phase, n, t, lo, hi);
    PlacedAdded(s, c, n, t);
    LingeringStep(dead, s, Hole(c, pledged), dead', t, pledged);
  }
}
