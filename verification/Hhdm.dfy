/** The higher-half direct map: every page with memory in it is mapped at one offset. */
module Hhdm {
  import opened Options
  import opened Arith
  import opened MemoryMap
  import opened MapUpdate
  import opened Allocation
  import opened SlotTrace
  import opened Pmm
  import opened Frames
  import opened PageTree

  /** The start of the first page an entry reaches into. */
  function PagesBase(e: Entry): nat { e.base - e.base % PAGE }

  /** The length of the pages an entry reaches into. */
  function PagesLength(e: Entry): nat {
    var length := e.length + e.base % PAGE;
    if length % PAGE != 0 then length + (PAGE - length % PAGE) else length
  }

  /** An entry is widened to whole pages at both ends. */
  method WholePagesOf(e: Entry) returns (base: nat, length: nat)
    ensures base == PagesBase(e) && length == PagesLength(e)
  {
    base, length := e.base, e.length;
    if base % PAGE != 0 {
      length := length + base % PAGE;
      base := base - base % PAGE;
    }
    if length % PAGE != 0 {
      length := length + (PAGE - length % PAGE);
    }
  }

  /** `a` lies in a page that entry `e` reaches into, and `e` is not bad memory. */
  ghost predicate InPages(e: Entry, a: nat) {
    e.kind != Bad && PagesBase(e) <= a < PagesBase(e) + PagesLength(e)
  }

  ghost predicate Swept(entries: seq<Entry>, n: nat, a: nat)
    requires n <= |entries|
  {
    exists j :: 0 <= j < n && InPages(entries[j], a)
  }

  /** After sweeping `n` entries, exactly the addresses in their pages translate to their
      distance from the offset; all others translate as before. */
  ghost predicate Sweeping(t0: Tree, t: Tree, hhdm: nat, entries: seq<Entry>, n: nat, g: Grant)
    requires n <= |entries|
  {
    t.depth == t0.depth && forall x: nat ::
      var d := Distance(x, hhdm, Span(t0.depth + 1));
      Translate(t, x) == if Swept(entries, n, d) then Some(Hit(d, g)) else Translate(t0, x)
  }

  /** The pages an entry reaches into begin and end around it. */
  lemma PagesAround(e: Entry)
    ensures PagesBase(e) % PAGE == 0 && PagesLength(e) % PAGE == 0
    ensures PagesBase(e) <= e.base && e.End() <= PagesBase(e) + PagesLength(e) < e.End() + PAGE
  {
    var q := e.base / PAGE;
    assert PagesBase(e) == PAGE * q;
  }

  /** Whole pages that begin below a page boundary end there at the latest. */
  lemma PagesEnd(base: nat, length: nat, limit: nat)
    requires base % PAGE == 0 && length % PAGE == 0 && limit % PAGE == 0 && base + length < limit + PAGE
    ensures base + length <= limit
  {
    var i, j, k := base / PAGE, length / PAGE, limit / PAGE;
    assert base + length == PAGE * (i + j) && limit == PAGE * k;
  }

  lemma PagesRange(e: Entry, limit: nat)
    requires e.End() <= limit && limit % PAGE == 0
    ensures PagesBase(e) % PAGE == 0 && PagesLength(e) % PAGE == 0
    ensures PagesBase(e) <= e.base && e.End() <= PagesBase(e) + PagesLength(e)
    ensures PagesBase(e) + PagesLength(e) <= limit
  {
    hide PagesBase, PagesLength;
    PagesAround(e);
    PagesEnd(PagesBase(e), PagesLength(e), limit);
  }

  /** A page that an entry reaches into holds an address of the entry. */
  lemma PageReached(e: Entry, d: nat) returns (a: nat)
    requires InPages(e, d) && e.length > 0
    ensures e.Has(a) && a / PAGE == d / PAGE
  {
    PagesAround(e);
    a := if d < e.base then e.base else if d < e.End() then d else e.End() - 1;
    hide PagesBase, PagesLength;
  }

  lemma SweepStep(t0: Tree, t: Tree, t': Tree, hhdm: nat, entries: seq<Entry>, n: nat, g: Grant, u: nat, m: nat,
      limit: nat)
    requires n < |entries| && t0.depth >= 1 && Sweeping(t0, t, hhdm, entries, n, g) && entries[n].kind != Bad
    requires limit <= m && limit <= Span(t0.depth + 1) && limit % PAGE == 0 && entries[n].End() <= limit && m > 0
    requires u % Span(t0.depth + 1) == (hhdm + PagesBase(entries[n])) % Span(t0.depth + 1)
    requires MapsRange(t, t', u, PagesBase(entries[n]), PagesLength(entries[n]), m, g)
    ensures Sweeping(t0, t', hhdm, entries, n + 1, g)
  {
    var w, e := Span(t0.depth + 1), entries[n];
    PagesRange(e, limit);
    forall x: nat
      ensures var d := Distance(x, hhdm, w);
              Translate(t', x) == if Swept(entries, n + 1, d) then Some(Hit(d, g)) else Translate(t0, x)
    {
      var d := Distance(x, hhdm, w);
      DistanceIs(x, hhdm, w);
      DistanceShift(x, hhdm, u, PagesBase(e), w);
      assert Translate(t', x) == Mapped(t, u, PagesBase(e), PagesLength(e), m, g, x);
      assert Swept(entries, n + 1, d) <==> Swept(entries, n, d) || InPages(e, d);
      if InPages(e, d) {
        ModUnique(d, m, 0, d);
      }
    }
  }

  lemma SweepSkip(t0: Tree, t: Tree, hhdm: nat, entries: seq<Entry>, n: nat, g: Grant)
    requires n < |entries| && Sweeping(t0, t, hhdm, entries, n, g) && entries[n].kind == Bad
    ensures Sweeping(t0, t, hhdm, entries, n + 1, g)
  {
    forall d: nat ensures Swept(entries, n + 1, d) <==> Swept(entries, n, d) {
    }
  }

  /** The direct map of the memory `live`: what is described and not bad is mapped at the
      offset, and addresses whose page has no memory in it translate as before. */
  ghost predicate DirectlyMapped(t0: Tree, t: Tree, live: seq<Entry>, hhdm: nat, g: Grant) {
    && (forall x: nat :: var d := Distance(x, hhdm, Span(t0.depth + 1));
          Cover(live, d) != [] && Cover(live, d) != [Bad] ==> Translate(t, x) == Some(Hit(d, g)))
    && (forall x: nat :: NoMemoryNear(live, Distance(x, hhdm, Span(t0.depth + 1))) ==>
        Translate(t, x) == Translate(t0, x))
  }

  ghost predicate NoMemoryNear(live: seq<Entry>, d: nat) {
    forall a: nat :: a / PAGE == d / PAGE ==> Cover(live, a) == []
  }

  lemma SweptDescribed(entries: seq<Entry>, live: seq<Entry>, d: nat)
    requires SnapshotOf(entries, live) && WellFormed(live) && Cover(live, d) != [] && Cover(live, d) != [Bad]
    ensures Swept(entries, |entries|, d)
  {
    var i := CoverWitness(live, d);
    CoverAlone(live, 0, i, d);
    assert entries[i] == entries[..|live|][i] == live[i];
    PagesAround(live[i]);
    assert InPages(entries[i], d);
  }

  lemma SweptNear(entries: seq<Entry>, live: seq<Entry>, d: nat)
    requires SnapshotOf(entries, live) && Swept(entries, |entries|, d)
    ensures !NoMemoryNear(live, d)
  {
    var j :| 0 <= j < |entries| && InPages(entries[j], d);
    var e := entries[j];
    assert e in entries;
    assert e != UNUSED by {
      assert !InPages(UNUSED, d);
    }
    var a := PageReached(e, d);
    assert e.Has(a);
  }

  lemma SweepDone(t0: Tree, t: Tree, hhdm: nat, entries: seq<Entry>, live: seq<Entry>, g: Grant)
    requires SnapshotOf(entries, live) && WellFormed(live) && Sweeping(t0, t, hhdm, entries, |entries|, g)
    ensures DirectlyMapped(t0, t, live, hhdm, g)
  {
    forall x: nat
      ensures var d := Distance(x, hhdm, Span(t0.depth + 1));
              && (Cover(live, d) != [] && Cover(live, d) != [Bad] ==> Translate(t, x) == Some(Hit(d, g)))
              && (NoMemoryNear(live, d) ==> Translate(t, x) == Translate(t0, x))
    {
      var d := Distance(x, hhdm, Span(t0.depth + 1));
      if Cover(live, d) != [] && Cover(live, d) != [Bad] {
        SweptDescribed(entries, live, d);
      }
      if NoMemoryNear(live, d) && Swept(entries, |entries|, d) {
        SweptNear(entries, live, d);
      }
    }
  }

  /** There is no memory in the page but bad memory. */
  ghost predicate OnlyBadNear(live: seq<Entry>, d: nat) {
    forall a: nat :: a / PAGE == d / PAGE ==> Cover(live, a) == [] || Cover(live, a) == [Bad]
  }

  /** A copied entry out of a dead slot, and not of bad memory, reaches into the page. */
  ghost predicate StaleNear(entries: seq<Entry>, dead: seq<Entry>, d: nat) {
    exists e :: e in entries && e in dead && InPages(e, d)
  }

  /** Pages with nothing but bad memory keep their translation, except exactly for those that a
      copied dead entry of another kind reaches into. */
  ghost predicate BadSkipped(t0: Tree, t: Tree, live: seq<Entry>, dead: seq<Entry>, entries: seq<Entry>, hhdm: nat,
      g: Grant) {
    forall x: nat :: var d := Distance(x, hhdm, Span(t0.depth + 1));
      OnlyBadNear(live, d) ==>
          Translate(t, x) == if StaleNear(entries, dead, d) then Some(Hit(d, g)) else Translate(t0, x)
  }

  /** Pages with nothing but bad memory keep their translation. */
  ghost predicate BadUntouched(t0: Tree, t: Tree, live: seq<Entry>, hhdm: nat) {
    forall x: nat :: OnlyBadNear(live, Distance(x, hhdm, Span(t0.depth + 1))) ==> Translate(t, x) == Translate(t0, x)
  }

  lemma BadPageSwept(entries: seq<Entry>, live: seq<Entry>, dead: seq<Entry>, d: nat)
    requires Sources(entries, live, dead) && OnlyBadNear(live, d)
    ensures Swept(entries, |entries|, d) <==> StaleNear(entries, dead, d)
  {
    hide InPages;
    if j :| 0 <= j < |entries| && InPages(entries[j], d) {
      var e := entries[j];
      assert e in entries && e.kind != Bad by { BadNotInPages(e, d); }
      if e !in dead {
        var a := PageReached(e, d);
        assert false;
      }
    }
    if e :| e in entries && e in dead && InPages(e, d) {
      var j :| 0 <= j < |entries| && entries[j] == e;
    }
  }

  lemma BadNotInPages(e: Entry, d: nat)
    requires InPages(e, d)
    ensures e.kind != Bad
  {
  }

  lemma SweepSkipsBad(t0: Tree, t: Tree, hhdm: nat, entries: seq<Entry>, live: seq<Entry>, dead: seq<Entry>, g: Grant)
    requires Sweeping(t0, t, hhdm, entries, |entries|, g) && Sources(entries, live, dead)
    ensures BadSkipped(t0, t, live, dead, entries, hhdm, g)
  {
    hide Swept, StaleNear, OnlyBadNear, Sources;
    forall x: nat | OnlyBadNear(live, Distance(x, hhdm, Span(t0.depth + 1)))
      ensures var d := Distance(x, hhdm, Span(t0.depth + 1));
              Translate(t, x) == if StaleNear(entries, dead, d) then Some(Hit(d, g)) else Translate(t0, x)
    {
      BadPageSwept(entries, live, dead, Distance(x, hhdm, Span(t0.depth + 1)));
    }
  }

  /** Where no dead slot of another kind describes bad memory, no copied one reaches it. */
  lemma BadStaysOut(t0: Tree, t: Tree, live: seq<Entry>, dead: seq<Entry>, entries: seq<Entry>, hhdm: nat, g: Grant)
    requires BadSkipped(t0, t, live, dead, entries, hhdm, g) && NoneSpoilt(live, dead) && Lingering(dead, live, iset{})
    ensures BadUntouched(t0, t, live, hhdm)
  {
    forall d: nat | OnlyBadNear(live, d) ensures !StaleNear(entries, dead, d) {
      if e :| e in entries && e in dead && InPages(e, d) {
        assert e != UNUSED by { assert !InPages(UNUSED, d); }
        var a := PageReached(e, d);
        assert false;
      }
    }
  }

  /** Claiming the snapshot's own block before the sweep makes no difference to the promise. */
  lemma DirectlyMappedBefore(t0: Tree, t: Tree, live: seq<Entry>, live1: seq<Entry>, hhdm: nat, g: Grant, c: nat,
      bytes: nat)
    requires DirectlyMapped(t0, t, live1, hhdm, g) && Claimed(live, c, bytes, Allocated, live1)
    ensures DirectlyMapped(t0, t, live, hhdm, g)
  {
    forall d: nat | NoMemoryNear(live, d) ensures NoMemoryNear(live1, d) {
      forall a: nat | a / PAGE == d / PAGE ensures Cover(live1, a) == [] {
        assert Cover(live, a) == [];
      }
    }
  }

  /** What a sweep over a snapshot of `live1` promises about the map `live` it was made from. */
  lemma SweepPromises(t0: Tree, t: Tree, hhdm: nat, entries: seq<Entry>, g: Grant, live: seq<Entry>, dead: seq<Entry>,
      c: nat, bytes: nat, live1: seq<Entry>)
    requires Sweeping(t0, t, hhdm, entries, |entries|, g) && SnapshotOf(entries, live1) && WellFormed(live1)
    requires Claimed(live, c, bytes, Allocated, live1) && Sources(entries, live, dead) && Lingering(dead, live, iset{})
    ensures DirectlyMapped(t0, t, live, hhdm, g) && BadSkipped(t0, t, live, dead, entries, hhdm, g)
    ensures NoneSpoilt(live, dead) ==> BadUntouched(t0, t, live, hhdm)
  {
    hide Sweeping, SnapshotOf, Tidy, Claimed, Sources, Lingering, DirectlyMapped, BadSkipped, BadUntouched, NoneSpoilt;
    SweepDone(t0, t, hhdm, entries, live1, g);
    DirectlyMappedBefore(t0, t, live, live1, hhdm, g, c, bytes);
    SweepSkipsBad(t0, t, hhdm, entries, live, dead, g);
    if NoneSpoilt(live, dead) {
      BadStaysOut(t0, t, live, dead, entries, hhdm, g);
    }
  }

  /** The snapshot's block can be released after the sweep, with every table still in place. */
  lemma SnapshotReleasable(live: seq<Entry>, pages: set<nat>, live1: seq<Entry>, live2: seq<Entry>, pages2: set<nat>,
      c: nat, bytes: nat)
    requires WellFormed(live2) && bytes > 0 && Grown(live1, pages, live2, pages2)
        && Claimed(live, c, bytes, Allocated, live1)
    requires forall p :: p in pages ==> Owned(live, p)
    ensures Fits(live2, Request(c, bytes, Free, true)) && c + bytes < ADDRESS_LIMIT
    ensures forall p :: p in pages2 ==> p + PAGE <= c || c + bytes <= p
  {
    hide Fits, Kept, Tidy, Holds, Owned, Cover, FreePage;
    ClaimedHeld(live, c, bytes, Allocated, live1);
    GrownKept(live1, pages, live2, pages2);
    HeldReleasable(live1, live2, c, bytes);
    forall p | p in pages2 ensures p + PAGE <= c || c + bytes <= p {
      if p in pages {
        OwnedApart(live, p, c, bytes, live1);
      } else {
        FreeApart(live, p, c, bytes, live1);
      }
    }
  }

  lemma HeldReleasable(live1: seq<Entry>, live2: seq<Entry>, c: nat, bytes: nat)
    requires WellFormed(live2) && bytes > 0 && Kept(live1, live2) && Holds(live1, c, c + bytes, Allocated)
    ensures Fits(live2, Request(c, bytes, Free, true)) && c + bytes < ADDRESS_LIMIT
  {
    hide Fits;
    assert Holds(live2, c, c + bytes, Allocated);
    var e :| e in live2 && e.kind == Allocated && e.base <= c && c + bytes <= e.End();
    var j :| 0 <= j < |live2| && live2[j] == e;
    FitsWithin(live2, Request(c, bytes, Free, true), j);
  }

  lemma OwnedApart(live: seq<Entry>, p: nat, c: nat, bytes: nat, live1: seq<Entry>)
    requires Claimed(live, c, bytes, Allocated, live1) && bytes > 0 && Owned(live, p)
    ensures p + PAGE <= c || c + bytes <= p
  {
    PageApart(live, p, c, bytes, [Allocated], [Free]);
  }

  lemma FreeApart(live: seq<Entry>, p: nat, c: nat, bytes: nat, live1: seq<Entry>)
    requires Claimed(live, c, bytes, Allocated, live1) && bytes > 0 && FreePage(live1, p)
    ensures p + PAGE <= c || c + bytes <= p
  {
    PageApart(live1, p, c, bytes, [Free], [Allocated]);
  }
}
