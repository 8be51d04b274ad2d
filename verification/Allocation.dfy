/** What allocating from a memory map and freeing into it mean: where a block may go, when
    setting a range is safe, and what a set of outstanding blocks says about the map. */
module Allocation {
  import opened Arith
  import opened MemoryMap
  import opened MapUpdate

  const PAGE: nat := 4096

  // ---------------------------------------------------------------- when a request fits

  lemma TailWellFormed(s: seq<Entry>)
    requires WellFormed(s) && s != []
    ensures WellFormed(s[1..])
    ensures forall f :: f in s[1..] ==> s[0].End() <= f.base && f.length > 0 && f in s
  {
    var rest := s[1..];
    assert forall j :: 0 <= j < |rest| ==> rest[j] == s[j + 1];
  }

  /** A forced request is carried out exactly when every entry inside it shares both of its
      endpoints or neither. */
  lemma {:induction false} FitsForced(s: seq<Entry>, r: Request)
    requires WellFormed(s) && r.force
    ensures Fits(s, r) <==> forall e :: e in s && Inside(e, r) ==> (e.base == r.base <==> e.End() == r.End())
  {
    if s != [] {
      var e, rest := s[0], s[1..];
      TailWellFormed(s);
      FitsForced(rest, r);
      assert forall f :: f in s <==> f == e || f in rest;
      if e.base >= r.End() || e.End() > r.End() || (Inside(e, r) && e.End() == r.End()) {
        assert forall f :: f in rest ==> !Inside(f, r);
      }
      if e.base == r.base && e.End() < r.End() {
        assert !Rescued(rest, e.End(), r);
      }
    }
  }

  /** A request inside a single entry always fits. */
  lemma FitsWithin(s: seq<Entry>, r: Request, i: nat)
    requires WellFormed(s) && i < |s| && s[i].base <= r.base && r.End() <= s[i].End()
    ensures Fits(s, r)
  {
    FitsDrop(s, i, r);
    var u := s[i..];
    assert u[0] == s[i] && u[1..] == s[i + 1..];
    FitsApart(s, i + 1, r);
    if s[i].End() == r.End() && s[i].base < r.base {
      FitsApart(s, i + 1, r.From(r.End()));
    }
  }

  /** A request in unclaimed space always fits. */
  lemma FitsUnclaimed(s: seq<Entry>, r: Request)
    requires WellFormed(s) && !Busy(s, r)
    ensures Fits(s, r)
  {
    forall a: nat | r.In(a) ensures Cover(s, a) == [] {
    }
    EmptyCoverApart(s, r);
    FitsApart(s, 0, r);
    assert s[0..] == s;
  }

  ghost predicate Overlaps(e: Entry, r: Request) { e.base < r.End() && r.base < e.End() }

  /** The entries a request meets do not touch each other, and none of them shares an
      endpoint with the request from inside. */
  ghost predicate Scattered(s: seq<Entry>, r: Request) {
    && (forall e :: e in s && Inside(e, r) ==> e.base != r.base && e.End() != r.End())
    && (forall e, f :: e in s && f in s && Overlaps(e, r) && Overlaps(f, r) ==> e.End() != f.base)
  }

  lemma ScatteredTail(s: seq<Entry>, r: Request)
    requires s != [] && Scattered(s, r)
    ensures Scattered(s[1..], r)
    ensures Inside(s[0], r) ==> s[0].base != r.base && s[0].End() != r.End()
  {
    assert s[0] in s;
    assert forall f :: f in s[1..] ==> f in s;
  }

  lemma ScatteredPast(s: seq<Entry>, r: Request)
    requires s != [] && Scattered(s, r) && Overlaps(s[0], r) && s[0].End() <= r.End()
    requires forall f :: f in s[1..] ==> s[0].End() <= f.base && f.length > 0 && f in s
    ensures Scattered(s[1..], Past(r, s[0]))
  {
    var e, rest, q := s[0], s[1..], Past(r, s[0]);
    assert e in s;
    forall f | f in rest && Overlaps(f, q) ensures Overlaps(f, r) {
    }
    forall f | f in rest && Inside(f, q) ensures f.base != q.base && f.End() != q.End() {
      assert Overlaps(f, r) && Inside(f, r);
    }
  }

  /** Requests of any priority fit where the entries they meet are scattered. */
  lemma {:induction false} FitsScattered(s: seq<Entry>, r: Request)
    requires WellFormed(s) && Scattered(s, r)
    ensures Fits(s, r)
  {
    hide Scattered, Tidy;
    if s != [] {
      TailWellFormed(s);
      ScatteredTail(s, r);
      if s[0].base < r.End() && r.base < s[0].End() <= r.End() {
        ScatteredPast(s, r);
        FitsScattered(s[1..], Past(r, s[0]));
      } else {
        FitsScattered(s[1..], r);
      }
    }
  }

  /** A reserved range laid over a shorter free one that starts where it starts: the walk
      passes over the free entry, and the map ends up with two entries for one address. */
  lemma OverlayWitness()
    ensures var s := [Entry(0x1000, 0x1000, Free)];
            var r := Request(0x1000, 0x2000, Reserved, false);
            var t := [Entry(0x1000, 0x1000, Free), Entry(0x1000, 0x2000, Reserved)];
            WellFormed(s) && !Fits(s, r) && Placed(s, r, 1, t) && |Cover(t, 0x1000)| == 2 && !WellFormed(t)
  {
    var e, f := Entry(0x1000, 0x1000, Free), Entry(0x1000, 0x2000, Reserved);
    CoverConcat([e], [f], 0x1000);
    CoverOne(e, 0x1000);
    CoverOne(f, 0x1000);
    assert [e] + [f] == [e, f];
    NotTidy([e, f], 0, 0x1000);
    assert [e][1..] == [];
  }

  // ---------------------------------------------------------------- where a block may go

  /** A block of `length` bytes fits at `x` inside a single free entry. */
  ghost predicate CanHold(s: seq<Entry>, x: nat, length: nat) {
    exists e :: e in s && HoldsAt(e, x, length)
  }

  ghost predicate HoldsAt(e: Entry, x: nat, length: nat) {
    e.kind == Free && e.base <= x && x + length <= e.End() && x < e.End()
  }

  ghost predicate LowestFit(s: seq<Entry>, length: nat, alignment: nat, x: nat)
    requires alignment > 0
  {
    && x % alignment == 0
    && CanHold(s, x, length)
    && (forall y: nat :: y % alignment == 0 && CanHold(s, y, length) ==> x <= y)
  }

  function Ceil(x: nat, alignment: nat): nat
    requires alignment > 0
  {
    (x + alignment - 1) / alignment * alignment
  }

  lemma NotBelow(x: nat, alignment: nat, q: nat, k: nat)
    requires alignment > 0 && q * alignment < x + alignment && x <= k * alignment
    ensures q * alignment <= k * alignment
  {
    assert (k + 1) * alignment == k * alignment + alignment;
    if k < q {
      MulMono(k + 1, q, alignment);
    } else {
      MulMono(q, k, alignment);
    }
  }

  /** Rounding up gives the least multiple from `x` on. */
  lemma CeilLeast(x: nat, alignment: nat)
    requires alignment > 0
    ensures x <= Ceil(x, alignment) < x + alignment && Ceil(x, alignment) % alignment == 0
    ensures forall y: nat :: y % alignment == 0 && x <= y ==> Ceil(x, alignment) <= y
  {
    var q, r := (x + alignment - 1) / alignment, (x + alignment - 1) % alignment;
    MulMod(q, alignment);
    assert x + alignment - 1 == q * alignment + r;
    forall y: nat | y % alignment == 0 && x <= y ensures q * alignment <= y {
      assert y == y / alignment * alignment;
      NotBelow(x, alignment, q, y / alignment);
    }
  }

  // ---------------------------------------------------------------- total described length

  ghost function Total(s: seq<Entry>): nat {
    if s == [] then 0 else s[0].length + Total(s[1..])
  }

  ghost function Range(e: Entry): set<nat> {
    set a: nat | a < e.End() && e.Has(a)
  }

  ghost function Described(s: seq<Entry>): set<nat> {
    set a: nat | a < ADDRESS_LIMIT && Cover(s, a) != []
  }

  lemma {:induction false} RangeSize(e: Entry)
    ensures |Range(e)| == e.length
    decreases e.length
  {
    if e.length == 0 {
      assert Range(e) == {};
    } else {
      var f := e.(length := e.length - 1);
      RangeSize(f);
      forall a: nat ensures a in Range(e) <==> a in Range(f) + {f.End()} {
        assert e.Has(a) <==> f.Has(a) || a == f.End();
      }
      assert Range(e) == Range(f) + {f.End()};
    }
  }

  /** The first entry of a well-formed map describes its own addresses, and no other does. */
  lemma DescribedSplit(s: seq<Entry>)
    requires WellFormed(s) && s != []
    ensures Described(s) == Range(s[0]) + Described(s[1..]) && Range(s[0]) !! Described(s[1..])
  {
    var e, rest := s[0], s[1..];
    TailWellFormed(s);
    hide Tidy;
    forall a: nat | e.Has(a) ensures Cover(rest, a) == [] {
      CoverNone(rest, a);
    }
    forall a: nat ensures a in Described(s) <==> a in Range(e) + Described(rest) {
      assert Cover(s, a) == (if e.Has(a) then [e.kind] else []) + Cover(rest, a);
    }
  }

  /** The lengths of a well-formed map's entries add up to the number of addresses it describes. */
  lemma {:induction false} TotalIsDescribed(s: seq<Entry>)
    requires WellFormed(s)
    ensures Total(s) == |Described(s)|
  {
    if s == [] {
      assert Described(s) == {};
    } else {
      TailWellFormed(s);
      DescribedSplit(s);
      hide Described, Range, Tidy;
      TotalIsDescribed(s[1..]);
      RangeSize(s[0]);
    }
  }

  /** A request for addresses already described conserves the total described length. */
  lemma TotalConserved(s: seq<Entry>, r: Request, t: seq<Entry>)
    requires WellFormed(s) && WellFormed(t) && Carried(s, r, t)
    requires forall a :: r.In(a) ==> Cover(s, a) != []
    ensures Total(t) == Total(s)
  {
    TotalIsDescribed(s);
    TotalIsDescribed(t);
    forall a: nat ensures Cover(t, a) != [] <==> Cover(s, a) != [] {
      assert Cover(t, a) == Want(r, a, Cover(s, a));
    }
    assert Described(s) == Described(t);
  }

  // ---------------------------------------------------------------- outstanding blocks

  datatype Block = Block(base: nat, pages: nat, kind: Kind) {
    function Length(): nat { pages * PAGE }

    function End(): nat { base + Length() }

    predicate Has(a: nat) { base <= a < End() }

    function Claim(): Request { Request(base, Length(), kind, true) }

    function Release(): Request { Request(base, Length(), Free, true) }
  }

  /** Each block lies in one entry of its own kind, and none is of the free kind. */
  ghost predicate Backed(blocks: seq<Block>, s: seq<Entry>) {
    forall i :: 0 <= i < |blocks| ==>
      blocks[i].kind != Free && blocks[i].base < ADDRESS_LIMIT
          && (blocks[i].pages > 0 ==> Holds(s, blocks[i].base, blocks[i].End(), blocks[i].kind))
  }

  /** No two blocks share an address. */
  ghost predicate Separate(blocks: seq<Block>) {
    forall i, j, a :: 0 <= i < j < |blocks| && blocks[i].Has(a) ==> !blocks[j].Has(a)
  }

  ghost predicate Outside(blocks: seq<Block>, a: nat) {
    forall i :: 0 <= i < |blocks| ==> !blocks[i].Has(a)
  }

  /** `s` is `s0` with the blocks, all taken from free space, laid over it. */
  ghost predicate Overlaid(s0: seq<Entry>, blocks: seq<Block>, s: seq<Entry>) {
    && (forall i, a :: 0 <= i < |blocks| && blocks[i].Has(a) ==>
        Cover(s0, a) == [Free] && Cover(s, a) == [blocks[i].kind])
    && (forall a :: Outside(blocks, a) ==> Cover(s, a) == Cover(s0, a))
  }

  /** The map `s` is the map `s0` with the outstanding blocks laid over it: each block was
      free, lies in one entry of its own kind, and shares no address with another. */
  ghost predicate Ledger(s0: seq<Entry>, blocks: seq<Block>, s: seq<Entry>) {
    WellFormed(s) && Backed(blocks, s) && Separate(blocks) && Overlaid(s0, blocks, s)
  }

  lemma LedgerStarts(s: seq<Entry>)
    requires WellFormed(s)
    ensures Ledger(s, [], s)
  {
  }

  lemma HeldFree(s: seq<Entry>, x: nat, length: nat, a: nat)
    requires WellFormed(s) && CanHold(s, x, length) && x <= a < x + length
    ensures Cover(s, a) == [Free]
  {
    var e :| e in s && HoldsAt(e, x, length);
    var j :| 0 <= j < |s| && s[j] == e;
    CoverAlone(s, 0, j, a);
  }

  lemma HeldFits(s: seq<Entry>, x: nat, length: nat, r: Request)
    requires WellFormed(s) && CanHold(s, x, length) && r.base == x && r.length == length
    ensures Fits(s, r) && r.End() < ADDRESS_LIMIT
  {
    var e :| e in s && HoldsAt(e, x, length);
    var j :| 0 <= j < |s| && s[j] == e;
    FitsWithin(s, r, j);
  }

  lemma ClaimApart(s0: seq<Entry>, blocks: seq<Block>, s: seq<Entry>, b: Block, a: nat)
    requires WellFormed(s) && Backed(blocks, s) && Overlaid(s0, blocks, s)
    requires CanHold(s, b.base, b.Length()) && b.Has(a)
    ensures Outside(blocks, a) && Cover(s, a) == [Free] && Cover(s0, a) == [Free]
  {
    HeldFree(s, b.base, b.Length(), a);
  }

  lemma ClaimCover(s: seq<Entry>, b: Block, t: seq<Entry>, a: nat)
    requires Carried(s, b.Claim(), t)
    ensures Cover(t, a) == if b.Has(a) then [b.kind] else Cover(s, a)
  {
    assert Cover(t, a) == Want(b.Claim(), a, Cover(s, a));
  }

  lemma ClaimOverlaid(s0: seq<Entry>, blocks: seq<Block>, s: seq<Entry>, b: Block, t: seq<Entry>)
    requires WellFormed(s) && Backed(blocks, s) && Overlaid(s0, blocks, s)
    requires CanHold(s, b.base, b.Length()) && Carried(s, b.Claim(), t)
    ensures Overlaid(s0, blocks + [b], t)
  {
    hide Tidy, Carried, CanHold, Backed, Cover;
    var bs := blocks + [b];
    forall i, a: nat | 0 <= i < |bs| && bs[i].Has(a) ensures Cover(s0, a) == [Free] && Cover(t, a) == [bs[i].kind] {
      ClaimCover(s, b, t, a);
      if b.Has(a) {
        ClaimApart(s0, blocks, s, b, a);
      }
    }
    forall a: nat | Outside(bs, a) ensures Cover(t, a) == Cover(s0, a) {
      ClaimCover(s, b, t, a);
      assert !bs[|blocks|].Has(a);
      assert forall i :: 0 <= i < |blocks| ==> bs[i] == blocks[i];
    }
  }

  lemma ClaimBacked(s0: seq<Entry>, blocks: seq<Block>, s: seq<Entry>, b: Block, t: seq<Entry>)
    requires Ledger(s0, blocks, s) && b.kind != Free && CanHold(s, b.base, b.Length())
    requires KeepsBlocks(s, b.Claim(), t)
    requires if b.pages > 0 then Holds(t, b.base, b.End(), b.kind) else t == s
    ensures Backed(blocks + [b], t)
  {
    var bs := blocks + [b];
    HeldFits(s, b.base, b.Length(), b.Claim());
    forall i | 0 <= i < |bs| && bs[i].pages > 0 ensures Holds(t, bs[i].base, bs[i].End(), bs[i].kind) {
      if i < |blocks| {
        forall a: nat | b.Has(a) ensures !blocks[i].Has(a) {
          ClaimApart(s0, blocks, s, b, a);
        }
        ApartFrom(blocks[i], b);
      }
    }
  }

  /** Claiming a free block extends the ledger. */
  lemma LedgerClaim(s0: seq<Entry>, blocks: seq<Block>, s: seq<Entry>, b: Block, t: seq<Entry>)
    requires Ledger(s0, blocks, s) && b.kind != Free && CanHold(s, b.base, b.Length())
    requires WellFormed(t) && Carried(s, b.Claim(), t) && KeepsBlocks(s, b.Claim(), t)
    requires if b.pages > 0 then Holds(t, b.base, b.End(), b.kind) else t == s
    ensures Ledger(s0, blocks + [b], t)
  {
    hide Tidy, Carried, CanHold, KeepsBlocks, Backed, Overlaid, Holds;
    ClaimOverlaid(s0, blocks, s, b, t);
    ClaimBacked(s0, blocks, s, b, t);
    var bs := blocks + [b];
    forall i, j, a: nat | 0 <= i < j < |bs| && bs[i].Has(a) ensures !bs[j].Has(a) {
      assert bs[i] == blocks[i];
      if j == |blocks| && b.Has(a) {
        ClaimApart(s0, blocks, s, b, a);
      }
    }
  }

  /** Blocks without a common address lie on one side of each other. */
  lemma ApartFrom(b: Block, c: Block)
    requires b.pages > 0 && c.pages > 0 ==> forall a :: c.Has(a) ==> !b.Has(a)
    ensures b.pages > 0 ==> c.pages == 0 || b.End() <= c.base || c.End() <= b.base
  {
    if b.pages > 0 && c.pages > 0 {
      assert c.Has(c.base) && b.Has(b.base);
    }
  }

  function Without(blocks: seq<Block>, j: nat): seq<Block>
    requires j < |blocks|
  {
    blocks[..j] + blocks[j + 1..]
  }

  /** Any outstanding block can be released as a whole. */
  lemma LedgerFits(s0: seq<Entry>, blocks: seq<Block>, s: seq<Entry>, j: nat)
    requires Ledger(s0, blocks, s) && j < |blocks|
    ensures Fits(s, blocks[j].Release())
    ensures blocks[j].End() < ADDRESS_LIMIT
  {
    var b := blocks[j];
    if b.pages > 0 {
      assert Holds(s, b.base, b.End(), b.kind);
      var e :| e in s && e.kind == b.kind && e.base <= b.base && b.End() <= e.End();
      var i :| 0 <= i < |s| && s[i] == e;
      FitsWithin(s, b.Release(), i);
    } else {
      FitsApart(s, 0, b.Release());
      assert s[0..] == s;
    }
  }

  lemma ReleaseCover(s: seq<Entry>, b: Block, t: seq<Entry>, a: nat)
    requires Carried(s, b.Release(), t)
    ensures Cover(t, a) == if b.Has(a) then [Free] else Cover(s, a)
  {
    assert Cover(t, a) == Want(b.Release(), a, Cover(s, a));
  }

  /** The blocks left are the others. */
  lemma WithoutOne(blocks: seq<Block>, j: nat)
    requires j < |blocks|
    ensures |Without(blocks, j)| == |blocks| - 1
    ensures forall i :: 0 <= i < |blocks| - 1 ==> Without(blocks, j)[i] == blocks[if i < j then i else i + 1]
  {
  }

  lemma OutsideWithout(blocks: seq<Block>, j: nat, a: nat)
    requires j < |blocks| && Outside(Without(blocks, j), a) && !blocks[j].Has(a)
    ensures Outside(blocks, a)
  {
    WithoutOne(blocks, j);
    forall i | 0 <= i < |blocks| ensures !blocks[i].Has(a) {
      if i != j {
        assert !Without(blocks, j)[if i < j then i else i - 1].Has(a);
      }
    }
  }

  lemma ReleaseOverlaid(s0: seq<Entry>, blocks: seq<Block>, s: seq<Entry>, j: nat, t: seq<Entry>)
    requires Separate(blocks) && Overlaid(s0, blocks, s) && j < |blocks| && Carried(s, blocks[j].Release(), t)
    ensures Overlaid(s0, Without(blocks, j), t)
  {
    hide Carried, Without, Outside, Cover;
    var b, bs := blocks[j], Without(blocks, j);
    WithoutOne(blocks, j);
    forall i, a: nat | 0 <= i < |bs| && bs[i].Has(a) ensures Cover(s0, a) == [Free] && Cover(t, a) == [bs[i].kind] {
      ReleaseCover(s, b, t, a);
      var i' := if i < j then i else i + 1;
      assert blocks[i'].Has(a) && !b.Has(a);
    }
    forall a: nat | Outside(bs, a) ensures Cover(t, a) == Cover(s0, a) {
      ReleaseCover(s, b, t, a);
      if b.Has(a) {
        assert Cover(s0, a) == [Free];
      } else {
        OutsideWithout(blocks, j, a);
      }
    }
  }

  /** Releasing a whole block takes it out of the ledger. */
  lemma LedgerRelease(s0: seq<Entry>, blocks: seq<Block>, s: seq<Entry>, j: nat, t: seq<Entry>)
    requires Ledger(s0, blocks, s) && j < |blocks|
    requires WellFormed(t) && Carried(s, blocks[j].Release(), t) && KeepsBlocks(s, blocks[j].Release(), t)
    requires blocks[j].pages == 0 ==> t == s
    ensures Ledger(s0, Without(blocks, j), t)
  {
    hide Tidy, Carried, Overlaid, Holds;
    var b, bs := blocks[j], Without(blocks, j);
    ReleaseOverlaid(s0, blocks, s, j, t);
    forall i | 0 <= i < |bs| ensures bs[i] == blocks[if i < j then i else i + 1] {
    }
    forall i | 0 <= i < |bs| && bs[i].pages > 0 ensures Holds(t, bs[i].base, bs[i].End(), bs[i].kind) {
      ApartFrom(bs[i], b);
    }
  }

  /** Whatever is outstanding, the map describes as many bytes as it did at the start. */
  lemma LedgerTotal(s0: seq<Entry>, blocks: seq<Block>, s: seq<Entry>)
    requires WellFormed(s0) && Ledger(s0, blocks, s)
    ensures Total(s) == Total(s0)
  {
    TotalIsDescribed(s0);
    TotalIsDescribed(s);
    forall a: nat ensures Cover(s, a) != [] <==> Cover(s0, a) != [] {
      LedgerCovers(s0, blocks, s, a);
    }
    assert Described(s) == Described(s0);
  }

  lemma LedgerCovers(s0: seq<Entry>, blocks: seq<Block>, s: seq<Entry>, a: nat)
    requires Ledger(s0, blocks, s)
    ensures Cover(s, a) != [] <==> Cover(s0, a) != []
  {
    if !Outside(blocks, a) {
      var i :| 0 <= i < |blocks| && blocks[i].Has(a);
    }
  }

  /** Once everything is released, every address has the kind it started with. */
  lemma LedgerEmpty(s0: seq<Entry>, s: seq<Entry>, a: nat)
    requires Ledger(s0, [], s)
    ensures Cover(s, a) == Cover(s0, a)
  {
    assert Outside([], a);
  }

  // ---------------------------------------------------------------- the boot loader's ranges

  /** Every address has the kind of highest rank among the ranges over it, and none where there
      is no range. */
  ghost predicate Fed(ranges: seq<Entry>, s: seq<Entry>) {
    WellFormed(s) && forall a: nat :: FedAt(ranges, s, a)
  }

  ghost predicate FedAt(ranges: seq<Entry>, s: seq<Entry>, a: nat) {
    && (forall e :: e in ranges && e.Has(a) ==> |Cover(s, a)| == 1 && Rank(e.kind) <= Rank(Cover(s, a)[0]))
    && (Cover(s, a) != [] ==> exists e :: e in ranges && e.Has(a) && Cover(s, a) == [e.kind])
  }

  /** No range over an address is of a kind that comes later in the order of kinds than what the
      address has become. */
  ghost predicate LatestAt(ranges: seq<Entry>, s: seq<Entry>, a: nat) {
    forall e, i: nat, j: nat ::
      e in ranges && e.Has(a) && i < 9 && j < 9 && e.kind == ORDER[i] && Cover(s, a) == [ORDER[j]] ==> i <= j
  }

  /** The highest rank is the last place in the order of kinds. */
  lemma FedLatest(ranges: seq<Entry>, s: seq<Entry>)
    requires Fed(ranges, s)
    ensures forall a: nat :: LatestAt(ranges, s, a)
  {
    forall a: nat ensures LatestAt(ranges, s, a) {
      assert FedAt(ranges, s, a);
      forall e, i: nat, j: nat |
          e in ranges && e.Has(a) && i < 9 && j < 9 && e.kind == ORDER[i] && Cover(s, a) == [ORDER[j]]
        ensures i <= j
      {
        RankIsPlace(i);
        RankIsPlace(j);
      }
    }
  }

  function Addition(e: Entry): Request { Request(e.base, e.length, e.kind, false) }

  ghost predicate Unmixed(ranges: seq<Entry>) {
    forall i, j, a :: 0 <= i < j < |ranges| && ranges[i].Has(a) ==> !ranges[j].Has(a)
  }

  /** Ranges that do not overlap meet nothing described, in any order, so each fits. */
  lemma UnmixedUnclaimed(ranges: seq<Entry>, s: seq<Entry>, n: nat)
    requires Unmixed(ranges) && n < |ranges| && Fed(ranges[..n], s)
    ensures !Busy(s, Addition(ranges[n])) && Fits(s, Addition(ranges[n]))
  {
    forall a: nat | Addition(ranges[n]).In(a) ensures Cover(s, a) == [] {
      assert ranges[n].Has(a) && FedAt(ranges[..n], s, a);
      forall e | e in ranges[..n] ensures !e.Has(a) {
        var j :| 0 <= j < n && ranges[..n][j] == e;
        assert ranges[j] == e;
      }
    }
    FitsUnclaimed(s, Addition(ranges[n]));
  }

  lemma FedNothing()
    ensures Fed([], [])
  {
  }

  lemma FedNext(ranges: seq<Entry>, s: seq<Entry>, n: nat, t: seq<Entry>)
    requires n < |ranges| && Fed(ranges[..n], s) && WellFormed(t) && Carried(s, Addition(ranges[n]), t)
    ensures Fed(ranges[..n + 1], t)
  {
    hide Carried, Tidy, FedAt;
    var done, next := ranges[..n], ranges[..n + 1];
    assert next == done + [ranges[n]];
    forall a: nat ensures FedAt(next, t, a) {
      assert FedAt(done, s, a);
      UnforcedIsMaximum(s, Addition(ranges[n]), t, a);
      FedAtNext(done, ranges[n], s, t, a);
    }
  }

  lemma FedAtNext(done: seq<Entry>, e: Entry, s: seq<Entry>, t: seq<Entry>, a: nat)
    requires FedAt(done, s, a)
    requires !e.Has(a) ==> Cover(t, a) == Cover(s, a)
    requires e.Has(a) && Cover(s, a) == [] ==> Cover(t, a) == [e.kind]
    requires e.Has(a) && Cover(s, a) != [] ==>
        |Cover(s, a)| == 1
        && Cover(t, a) == [if Rank(e.kind) > Rank(Cover(s, a)[0]) then e.kind else Cover(s, a)[0]]
    ensures FedAt(done + [e], t, a)
  {
    if Cover(t, a) != [] {
      if e.Has(a) && (Cover(s, a) == [] || Rank(e.kind) > Rank(Cover(s, a)[0])) {
        assert e in done + [e];
      } else {
        var f :| f in done && f.Has(a) && Cover(s, a) == [f.kind];
        assert f in done + [e];
      }
    }
  }

  /** The order in which ranges are added makes no difference to any address, overlapping or not. */
  lemma FedOrder(ranges: seq<Entry>, s: seq<Entry>, ranges': seq<Entry>, s': seq<Entry>, a: nat)
    requires Fed(ranges, s) && Fed(ranges', s') && multiset(ranges) == multiset(ranges')
    ensures Cover(s, a) == Cover(s', a)
  {
    assert FedAt(ranges, s, a) && FedAt(ranges', s', a);
    assert forall e :: e in ranges <==> e in multiset(ranges');
    if Cover(s, a) != [] && Cover(s', a) != [] {
      RankInjective(Cover(s, a)[0], Cover(s', a)[0]);
    }
  }
}
