/** Page frames taken from the physical memory manager to hold page tables. */
module Frames {
  import opened MemoryMap
  import opened MapUpdate
  import opened Allocation

  /** Every described address lies below `limit`. */
  ghost predicate Below(live: seq<Entry>, limit: nat) {
    forall a: nat :: Cover(live, a) != [] ==> a < limit
  }

  /** The page at `p` is allocated. */
  ghost predicate Owned(live: seq<Entry>, p: nat) {
    p % PAGE == 0 && forall a: nat :: p <= a < p + PAGE ==> Cover(live, a) == [Allocated]
  }

  lemma BelowAlignment(live: seq<Entry>, limit: nat)
    requires WellFormed(live) && Below(live, limit) && limit + PAGE <= ADDRESS_LIMIT
    ensures forall e :: e in live ==> e.base + PAGE <= ADDRESS_LIMIT
  {
    forall e | e in live ensures e.base + PAGE <= ADDRESS_LIMIT {
      var j :| 0 <= j < |live| && live[j] == e;
      CoverAlone(live, 0, j, e.base);
    }
  }

  // ---------------------------------------------------------------- claiming blocks

  /** What is not free stays as it is, blocks stay in one entry, and free memory stays good. */
  ghost predicate Kept(live: seq<Entry>, live': seq<Entry>) {
    && (forall a: nat :: Cover(live, a) != [Free] ==> Cover(live', a) == Cover(live, a))
    && (forall a: nat :: Cover(live, a) == [Free] ==> Cover(live', a) != [] && Cover(live', a) != [Bad])
    && (forall x: nat, y: nat, k :: x < y && k != Free && Holds(live, x, y, k) ==> Holds(live', x, y, k))
  }

  /** `live'` is `live` after free memory was claimed, and `pages'` adds only free pages to
      `pages`. */
  ghost predicate Grown(live: seq<Entry>, pages: set<nat>, live': seq<Entry>, pages': set<nat>) {
    Kept(live, live') && forall p :: p in pages' ==> p in pages || FreePage(live, p)
  }

  /** As `Grown`, with nothing claimed for anything but tables. */
  ghost predicate Drawn(live: seq<Entry>, pages: set<nat>, live': seq<Entry>, pages': set<nat>) {
    && Grown(live, pages, live', pages')
    && (forall a: nat :: Cover(live, a) == [Free] ==> Cover(live', a) == [Free] || Cover(live', a) == [Allocated])
  }

  ghost predicate FreePage(live: seq<Entry>, p: nat) {
    forall a: nat :: p <= a < p + PAGE ==> Cover(live, a) == [Free]
  }

  /** Nothing but the free block `[c, c + length)` has changed, and that is now of kind `k`. */
  ghost predicate Claimed(live: seq<Entry>, c: nat, length: nat, k: Kind, live': seq<Entry>) {
    && Kept(live, live')
    && (forall a: nat :: Cover(live', a) == if c <= a < c + length then [k] else Cover(live, a))
    && (forall a: nat :: c <= a < c + length ==> Cover(live, a) == [Free])
    && (length > 0 ==> Holds(live', c, c + length, k))
    && Cover(live, c) == [Free]
  }

  lemma LowestHolds(live: seq<Entry>, length: nat, alignment: nat, c: nat)
    requires alignment > 0 && LowestFit(live, length, alignment, c)
    ensures CanHold(live, c, length) && c % alignment == 0
  {
  }

  /** A block that is not free has no address in common with a free block. */
  lemma HeldApart(live: seq<Entry>, x: nat, y: nat, k: Kind, c: nat, length: nat)
    requires WellFormed(live) && CanHold(live, c, length) && x < y && k != Free && Holds(live, x, y, k)
    ensures y <= c || c + length <= x
  {
    var e :| e in live && e.kind == k && e.base <= x && y <= e.End();
    var f :| f in live && HoldsAt(f, c, length);
    var j :| 0 <= j < |live| && live[j] == e;
    var i :| 0 <= i < |live| && live[i] == f;
    assert i != j;
  }

  /** What the allocator does to the map. */
  lemma BlockClaimed(live: seq<Entry>, c: nat, length: nat, k: Kind, live': seq<Entry>)
    requires WellFormed(live) && CanHold(live, c, length) && k != Bad
    requires Effect(live, Request(c, length, k, true), live') && Fits(live, Request(c, length, k, true))
    ensures Claimed(live, c, length, k, live')
  {
    hide Holds, Tidy, CanHold, Room, Fits;
    var r := Request(c, length, k, true);
    forall a: nat ensures Cover(live', a) == if c <= a < c + length then [k] else Cover(live, a) {
      assert Cover(live', a) == Want(r, a, Cover(live, a));
    }
    forall a: nat | c <= a < c + length ensures Cover(live, a) == [Free] {
      HeldFree(live, c, length, a);
    }
    forall x: nat, y: nat, l | x < y && l != Free && Holds(live, x, y, l) ensures Holds(live', x, y, l) {
      HeldApart(live, x, y, l, c, length);
    }
    HeldStart(live, c, length);
  }

  lemma HeldStart(live: seq<Entry>, c: nat, length: nat)
    requires WellFormed(live) && CanHold(live, c, length)
    ensures Cover(live, c) == [Free]
  {
    var f :| f in live && HoldsAt(f, c, length);
    var i :| 0 <= i < |live| && live[i] == f;
    CoverAlone(live, 0, i, c);
  }

  /** Claiming a block leaves owned pages owned, and takes nothing beyond the memory there is. */
  lemma ClaimedOwned(live: seq<Entry>, c: nat, length: nat, k: Kind, live': seq<Entry>, limit: nat)
    requires Claimed(live, c, length, k, live') && Below(live, limit)
    ensures Below(live', limit) && c + length <= limit && c < limit
    ensures forall p :: Owned(live, p) ==> Owned(live', p)
    ensures forall p: nat :: Owned(live, p) ==> p + PAGE <= c || c + length <= p
  {
    if length > 0 {
      assert Cover(live, c + length - 1) == [Free];
    }
    forall p: nat | Owned(live, p) ensures p + PAGE <= c || c + length <= p {
      var a := if p < c then c else p;
      assert p <= a < p + PAGE ==> Cover(live, a) == [Allocated];
    }
  }

  lemma DrawnNothing(live: seq<Entry>, pages: set<nat>)
    ensures Drawn(live, pages, live, pages)
  {
  }

  lemma GrownTwice(live: seq<Entry>, pages: set<nat>, live1: seq<Entry>, pages1: set<nat>, live2: seq<Entry>,
      pages2: set<nat>)
    requires Grown(live, pages, live1, pages1) && Grown(live1, pages1, live2, pages2)
    ensures Grown(live, pages, live2, pages2)
  {
    forall p | p in pages2 ensures p in pages || FreePage(live, p) {
      if p !in pages1 {
        forall a: nat | p <= a < p + PAGE ensures Cover(live, a) == [Free] {
          assert Cover(live1, a) == [Free];
        }
      }
    }
  }

  lemma DrawnTwice(live: seq<Entry>, pages: set<nat>, live1: seq<Entry>, pages1: set<nat>, live2: seq<Entry>,
      pages2: set<nat>)
    requires Drawn(live, pages, live1, pages1) && Drawn(live1, pages1, live2, pages2)
    ensures Drawn(live, pages, live2, pages2)
  {
    GrownTwice(live, pages, live1, pages1, live2, pages2);
  }

  lemma GrownKept(live: seq<Entry>, pages: set<nat>, live': seq<Entry>, pages': set<nat>)
    requires Grown(live, pages, live', pages')
    ensures Kept(live, live')
  {
  }

  lemma DrawnGrown(live: seq<Entry>, pages: set<nat>, live': seq<Entry>, pages': set<nat>)
    requires Drawn(live, pages, live', pages')
    ensures Grown(live, pages, live', pages')
  {
  }

  /** A page claimed for a table. */
  lemma DrawnOne(live: seq<Entry>, pages: set<nat>, c: nat, live': seq<Entry>)
    requires Claimed(live, c, PAGE, Allocated, live') && c % PAGE == 0
    ensures Drawn(live, pages, live', pages + {c})
    ensures !Owned(live, c) && Owned(live', c)
  {
  }

  lemma KeptNothing(live: seq<Entry>)
    ensures Kept(live, live)
  {
  }

  lemma ClaimedKept(live: seq<Entry>, c: nat, length: nat, k: Kind, live': seq<Entry>)
    requires Claimed(live, c, length, k, live')
    ensures Kept(live, live')
  {
  }

  lemma ClaimedHeld(live: seq<Entry>, c: nat, length: nat, k: Kind, live': seq<Entry>)
    requires Claimed(live, c, length, k, live') && length > 0
    ensures Holds(live', c, c + length, k)
  {
  }

  lemma KeptTwice(live: seq<Entry>, live1: seq<Entry>, live2: seq<Entry>)
    requires Kept(live, live1) && Kept(live1, live2)
    ensures Kept(live, live2)
  {
  }

  /** Claiming a block, growing, and releasing the block again keeps what was not free. */
  lemma KeptThrough(live: seq<Entry>, c: nat, bytes: nat, live1: seq<Entry>, live2: seq<Entry>, live3: seq<Entry>)
    requires Claimed(live, c, bytes, Allocated, live1) && Kept(live1, live2) && WellFormed(live)
    requires Effect(live2, Request(c, bytes, Free, true), live3) && Fits(live2, Request(c, bytes, Free, true))
    ensures Kept(live, live3)
  {
    hide Holds, Tidy, Room, Fits;
    forall a: nat | Cover(live, a) != [Free] ensures Cover(live3, a) == Cover(live, a) {
      assert Cover(live3, a) == Want(Request(c, bytes, Free, true), a, Cover(live2, a));
    }
    forall a: nat | Cover(live, a) == [Free] ensures Cover(live3, a) != [] && Cover(live3, a) != [Bad] {
      assert Cover(live3, a) == Want(Request(c, bytes, Free, true), a, Cover(live2, a));
    }
    forall x: nat, y: nat, k | x < y && k != Free && Holds(live, x, y, k) ensures Holds(live3, x, y, k) {
      if x < c + bytes && c < y {
        var a := if x < c then c else x;
        HeldAt(live, x, y, k, a);
      }
    }
  }

  /** Nor do the tables built meanwhile come from anything but memory that was free before. */
  lemma GrownThrough(live: seq<Entry>, pages: set<nat>, c: nat, bytes: nat, live1: seq<Entry>, live2: seq<Entry>,
      pages2: set<nat>, live3: seq<Entry>)
    requires Claimed(live, c, bytes, Allocated, live1) && Grown(live1, pages, live2, pages2) && WellFormed(live)
    requires Effect(live2, Request(c, bytes, Free, true), live3) && Fits(live2, Request(c, bytes, Free, true))
    ensures Grown(live, pages, live3, pages2)
  {
    hide Kept, Effect, Fits, Tidy;
    KeptThrough(live, c, bytes, live1, live2, live3);
    forall p | p in pages2 && p !in pages ensures FreePage(live, p) {
      assert FreePage(live1, p);
      forall a: nat | p <= a < p + PAGE ensures Cover(live, a) == [Free] {
        assert Cover(live1, a) == [Free];
      }
    }
  }

  /** Claiming a block for anything but a table. */
  lemma GrownNoTable(live: seq<Entry>, pages: set<nat>, live': seq<Entry>)
    requires Kept(live, live')
    ensures Grown(live, pages, live', pages)
  {
  }

  lemma HeldAt(live: seq<Entry>, x: nat, y: nat, k: Kind, a: nat)
    requires WellFormed(live) && Holds(live, x, y, k) && x <= a < y
    ensures Cover(live, a) == [k]
  {
    var e :| e in live && e.kind == k && e.base <= x && y <= e.End();
    var j :| 0 <= j < |live| && live[j] == e;
    CoverAlone(live, 0, j, a);
  }

  /** What is described stays below the limit. */
  lemma KeptBelow(live: seq<Entry>, live': seq<Entry>, limit: nat)
    requires Kept(live, live') && Below(live, limit)
    ensures Below(live', limit)
  {
    forall a: nat | Cover(live', a) != [] ensures a < limit {
      assert Cover(live, a) == [] ==> Cover(live', a) == [];
    }
  }

  /** Releasing a block that no owned page lies in leaves owned pages owned. */
  lemma BlockReleased(live: seq<Entry>, c: nat, bytes: nat, live': seq<Entry>, limit: nat, p: nat)
    requires Carried(live, Request(c, bytes, Free, true), live')
    requires Owned(live, p) && (p + PAGE <= c || c + bytes <= p)
    ensures Owned(live', p)
  {
    forall a: nat | p <= a < p + PAGE ensures Cover(live', a) == [Allocated] {
      assert Cover(live', a) == Want(Request(c, bytes, Free, true), a, Cover(live, a));
    }
  }

  lemma ReleasedBelow(live: seq<Entry>, c: nat, bytes: nat, live': seq<Entry>, limit: nat)
    requires Carried(live, Request(c, bytes, Free, true), live') && Below(live, limit) && c + bytes <= limit
    ensures Below(live', limit)
  {
    forall a: nat | Cover(live', a) != [] ensures a < limit {
      assert Cover(live', a) == Want(Request(c, bytes, Free, true), a, Cover(live, a));
    }
  }

  /** A page and a block that differ in what they are at every address are disjoint. */
  lemma PageApart(live: seq<Entry>, p: nat, c: nat, bytes: nat, k: seq<Kind>, l: seq<Kind>)
    requires k != l && bytes > 0
    requires forall a: nat :: p <= a < p + PAGE ==> Cover(live, a) == k
    requires forall a: nat :: c <= a < c + bytes ==> Cover(live, a) == l
    ensures p + PAGE <= c || c + bytes <= p
  {
    var a := if p < c then c else p;
    assert Cover(live, a) == Cover(live, a);
  }
}
