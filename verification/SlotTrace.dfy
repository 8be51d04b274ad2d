/** What a request leaves in the slots of the memory map's array besides its effect: what the
    last slot decides, what the slots behind the live entries hold, and which slots are never
    written. */
module SlotTrace {
  import opened MemoryMap
  import opened MapUpdate

  const MAX_ENTRIES: nat := 1024

  /** Every entry the request meets gives way to it. */
  ghost predicate Commands(s: seq<Entry>, r: Request) {
    forall e :: e in s && Meets(e, r) ==> r.Overrides(e.kind)
  }

  /** Placing `c` looks at the slot behind a full array: every entry starts at or below it, and
      the last one does not grow by it. */
  ghost predicate ReadsPast(s: seq<Entry>, c: Request) {
    && |s| == MAX_ENTRIES && s[MAX_ENTRIES - 1].base <= c.base
    && !(s[MAX_ENTRIES - 1].kind == c.kind && s[MAX_ENTRIES - 1].End() == c.base)
  }

  ghost predicate Topmost(s: seq<Entry>, r: Request) { |s| == MAX_ENTRIES && s[MAX_ENTRIES - 1].base <= r.base }

  /** A request that everything gives way to comes to look behind the array: it is full, the
      last entry starts at or below the request, is not trimmed to an entry that grows by it,
      and does not make room by moving up or going away. */
  ghost predicate ReachesPast(s: seq<Entry>, r: Request) {
    && Topmost(s, r)
    && var l := s[MAX_ENTRIES - 1];
       && !(l.kind == r.kind && l.base < r.base <= l.End() <= r.End())
       && !(l.base == r.base && l.End() >= r.End())
  }

  /** An upper bound on the live entries that a request leaves behind if everything gives way. */
  ghost function Need(s: seq<Entry>, r: Request): (n: nat)
    ensures |s| < n <= |s| + 2
  {
    |s| + if Straddled(s, r) then 2 else 1
  }

  /** Nothing is described from `x` on. */
  ghost predicate NothingFrom(s: seq<Entry>, x: nat) { forall a: nat :: x <= a ==> Cover(s, a) == [] }

  // ---------------------------------------------------------------- the last slot

  /** What the last slot will decide, when everything gives way to the request. */
  ghost predicate Tracked(s0: seq<Entry>, r: Request, s: seq<Entry>, i: nat) {
    if !Topmost(s0, r) then |s| == MAX_ENTRIES ==> s[MAX_ENTRIES - 1].base > r.base
    else if |s| < MAX_ENTRIES then i == |s| && !ReachesPast(s0, r)
    else if i < MAX_ENTRIES then s == s0
    else |s| == MAX_ENTRIES && (ReadsPast(s, r) <==> ReachesPast(s0, r))
  }

  /** Below the last of the entries that all start at or below the request, none meets it. */
  lemma BelowTop(s: seq<Entry>, r: Request, i: nat, lo: nat)
    requires Tidy(s, lo) && lo <= r.base && Topmost(s, r) && i < MAX_ENTRIES - 1
    ensures s[i].End() <= r.base
  {
  }

  lemma TrackedPass(s0: seq<Entry>, r: Request, s: seq<Entry>, i: nat, lo: nat)
    requires Tracked(s0, r, s, i) && i < |s| <= MAX_ENTRIES && r.length > 0 && s[i].length > 0
    requires Apart(s[i], r) || (Inside(s[i], r) && !(r.base == s[i].base <==> s[i].End() == r.End()))
    ensures Tracked(s0, r, s, i + 1)
  {
  }

  lemma TrackedTrim(s0: seq<Entry>, r: Request, s: seq<Entry>, i: nat, f: Entry, lo: nat)
    requires Tracked(s0, r, s, i) && i < |s| <= MAX_ENTRIES && r.length > 0 && Tidy(s, lo) && lo <= r.base
    requires Remnant(s[i], r, f)
    ensures Tracked(s0, r, s[i := f], i + 1)
  {
    if Topmost(s0, r) && i < MAX_ENTRIES - 1 {
      BelowTop(s, r, i, lo);
    }
  }

  lemma TrackedDrop(s0: seq<Entry>, r: Request, s: seq<Entry>, i: nat, t: seq<Entry>, lo: nat)
    requires Tracked(s0, r, s, i) && i < |s| <= MAX_ENTRIES && r.length > 0 && Tidy(s, lo) && lo <= r.base
    requires Inside(s[i], r) && (r.base == s[i].base <==> s[i].End() == r.End()) && |t| == |s| - 1
    ensures Tracked(s0, r, t, i)
  {
    if Topmost(s0, r) && i < MAX_ENTRIES - 1 {
      BelowTop(s, r, i, lo);
    }
  }

  /** Putting back the tail of a split entry looks behind the array exactly when the whole
      request does. */
  lemma TrackedTail(s0: seq<Entry>, r: Request, s: seq<Entry>, i: nat, lo: nat)
    requires Tracked(s0, r, s, i) && i < |s| <= MAX_ENTRIES && r.length > 0 && Tidy(s, lo) && lo <= r.base
    requires Surrounds(s[i], r)
    ensures ReachesPast(s[i := HeadOf(s[i], r)], TailOf(s[i], r)) <==> ReachesPast(s0, r)
    ensures ReachesPast(s0, r) <==> Topmost(s0, r)
  {
    if Topmost(s0, r) && i < MAX_ENTRIES - 1 {
      BelowTop(s, r, i, lo);
    }
  }

  /** With the tail back in place, some entry starts above the request. */
  lemma TrackedSplit(s0: seq<Entry>, r: Request, s: seq<Entry>, i: nat, lo: nat, a: nat)
    requires !Topmost(s0, r) && |s| <= MAX_ENTRIES && Tidy(s, lo) && r.length > 0
    requires a >= r.End() && Cover(s, a) != [] && forall j :: 0 <= j < |s| ==> Apart(s[j], r) && s[j].length > 0
    requires forall j :: 0 <= j < |s| && s[j].Has(a) ==> s[j].base >= r.End()
    ensures Tracked(s0, r, s, i)
  {
    var j := CoverWitness(s, a);
  }

  // ---------------------------------------------------------------- who gives way

  /** A request that everything gives way to stays whole. */
  lemma CommandsWhole(s0: seq<Entry>, r: Request, s: seq<Entry>, c: Request, lo: nat)
    requires Sound(s0, r, s, c, lo) && r.length > 0 && Commands(s0, r)
    ensures c == r
  {
    CommandedAt(s0, r, lo, r.base);
    CommandedAt(s0, r, lo, r.End() - 1);
    assert r.In(r.base) && r.In(r.End() - 1);
  }

  lemma CommandedAt(s0: seq<Entry>, r: Request, lo: nat, a: nat)
    requires Tidy(s0, lo) && lo <= r.base && r.In(a) && Commands(s0, r)
    ensures !Keeps(r, Cover(s0, a))
  {
    if Cover(s0, a) != [] {
      var j := CoverWitness(s0, a);
      CoverAlone(s0, lo, j, a);
      assert Meets(s0[j], r);
    }
  }

  /** Meeting an entry that stands, the request is not one that everything gives way to. */
  lemma MetStanding(s0: seq<Entry>, r: Request, s: seq<Entry>, i: nat, c: Request, lo: nat)
    requires Sound(s0, r, s, c, lo) && i < |s| && Meets(s[i], c) && c.length > 0 && s[i].length > 0
    requires !c.Overrides(s[i].kind)
    ensures !Commands(s0, r)
  {
    var a := if s[i].base < c.base then c.base else s[i].base;
    CoverAlone(s, lo, i, a);
    assert c.In(a) && Cover(s, a) != [];
    if Commands(s0, r) {
      CommandedAt(s0, r, lo, a);
      assert false;
    }
  }

  lemma ForcedCommands(s: seq<Entry>, r: Request)
    requires r.force
    ensures Commands(s, r)
  {
  }

  lemma UnclaimedCommands(s: seq<Entry>, r: Request)
    requires !Busy(s, r) && r.length > 0 && forall j :: 0 <= j < |s| ==> s[j].length > 0
    ensures Commands(s, r)
  {
    forall a: nat | r.In(a) ensures Cover(s, a) == [] {
    }
    EmptyCoverApart(s, r);
  }

  // ---------------------------------------------------------------- dead slots

  /** Slots that became dead on the way hold entries of the old map, from the request on. */
  ghost predicate Shed(s0: seq<Entry>, dead0: seq<Entry>, r: Request, dead: seq<Entry>) {
    forall d :: d in dead ==> d in dead0 || ShedAt(s0, r, d)
  }

  ghost predicate ShedAt(s0: seq<Entry>, r: Request, d: Entry) {
    d.length > 0 && d.base >= r.base && forall a: nat :: d.Has(a) ==> Cover(s0, a) == [d.kind]
  }

  /** What an entry of the walk's map says from the request on is what the old map said. */
  lemma SaidBefore(s0: seq<Entry>, r: Request, s: seq<Entry>, c: Request, lo: nat, j: nat)
    requires Sound(s0, r, s, c, lo) && j < |s| && s[j].base >= r.base
    ensures ShedAt(s0, r, s[j])
  {
    forall a: nat | s[j].Has(a) ensures Cover(s0, a) == [s[j].kind] {
      CoverAlone(s, lo, j, a);
    }
  }

  lemma ShedDrop(s0: seq<Entry>, dead0: seq<Entry>, r: Request, s: seq<Entry>, dead: seq<Entry>, i: nat, c: Request,
      lo: nat)
    requires Sound(s0, r, s, c, lo) && i < |s| && Inside(s[i], c) && Shed(s0, dead0, r, dead)
    ensures Shed(s0, dead0, r, [s[|s| - 1]] + dead)
  {
    hide ShedAt;
    assert s[i].base <= s[|s| - 1].base;
    SaidBefore(s0, r, s, c, lo, |s| - 1);
  }

  /** Slots shed by a request for a part are shed by the whole. */
  lemma ShedPart(s0: seq<Entry>, dead0: seq<Entry>, r: Request, dead: seq<Entry>, s: seq<Entry>, q: Request,
      dead': seq<Entry>)
    requires Shed(s0, dead0, r, dead) && Shed(s, dead, q, dead') && q.base >= r.base
    requires forall a: nat :: a >= q.base && Cover(s, a) != [] ==> Cover(s, a) == Cover(s0, a)
    ensures Shed(s0, dead0, r, dead')
  {
    forall d | d in dead' && d !in dead ensures ShedAt(s0, r, d) {
      assert ShedAt(s, q, d);
    }
  }

  /** No dead slot of another kind describes memory that is bad now. */
  ghost predicate NoneSpoilt(live: seq<Entry>, dead: seq<Entry>) {
    forall d, a: nat :: d in dead && d.kind != Bad && d.Has(a) ==> Cover(live, a) != [Bad]
  }

  /** Requests for anything but bad memory keep it so, and so do those for memory nobody has
      described, as long as dead slots describe only what is described. */
  lemma NoneSpoiltKept(s: seq<Entry>, dead: seq<Entry>, r: Request, t: seq<Entry>, dead': seq<Entry>)
    requires NoneSpoilt(s, dead) && Shed(s, dead, r, dead') && Carried(s, r, t) && (r.kind != Bad || !Busy(s, r))
    requires forall d, a: nat :: d in dead && d.Has(a) ==> Cover(s, a) != []
    ensures NoneSpoilt(t, dead')
  {
    forall d, a: nat | d in dead' && d.kind != Bad && d.Has(a) ensures Cover(t, a) != [Bad] {
      assert Cover(t, a) == Want(r, a, Cover(s, a));
      assert d in dead || ShedAt(s, r, d);
    }
  }

  /** Everything the entry describes is described and good. */
  ghost predicate Good(live: seq<Entry>, e: Entry) {
    e.length > 0 && forall a: nat :: e.Has(a) ==> Cover(live, a) != [] && Cover(live, a) != [Bad]
  }

  /** Copied entries that are not bad describe good memory, unless they come from dead slots. */
  ghost predicate Sources(entries: seq<Entry>, live: seq<Entry>, dead: seq<Entry>) {
    forall e :: e in entries && e.kind != Bad ==> e in dead || Good(live, e)
  }

  /** A copy of slots made after free memory was claimed. */
  lemma CopySources(s: seq<Entry>, dead: seq<Entry>, r: Request, t: seq<Entry>, dead': seq<Entry>, entries: seq<Entry>)
    requires Shed(s, dead, r, dead') && Carried(s, r, t) && WellFormed(t) && r.force
    requires forall a: nat :: r.In(a) ==> Cover(s, a) == [Free]
    requires entries <= t + dead'
    ensures Sources(entries, s, dead)
  {
    forall e | e in entries && e.kind != Bad && e !in dead ensures Good(s, e) {
      var j :| 0 <= j < |entries| && entries[j] == e;
      assert (t + dead')[j] == e;
      if j < |t| {
        forall a: nat | e.Has(a) ensures Cover(s, a) != [] && Cover(s, a) != [Bad] {
          CoverAlone(t, 0, j, a);
          assert Cover(t, a) == Want(r, a, Cover(s, a));
        }
      } else {
        assert e in dead' && ShedAt(s, r, e);
      }
    }
  }

  // ---------------------------------------------------------------- slots never written

  /** The slots from `n` on are as they were. */
  ghost predicate Unwritten(all0: seq<Entry>, all: seq<Entry>, n: nat) {
    |all| == |all0| && forall k :: n <= k < |all| ==> all[k] == all0[k]
  }

  lemma UnwrittenTwice(all0: seq<Entry>, all1: seq<Entry>, all2: seq<Entry>, n: nat, m: nat)
    requires Unwritten(all0, all1, n) && Unwritten(all1, all2, m) && m <= n
    ensures Unwritten(all0, all2, n)
  {
  }

  // ---------------------------------------------------------------- requests around everything

  /** Every entry lies strictly inside the request and gives way to it. */
  ghost predicate Swallows(s: seq<Entry>, r: Request) {
    s != [] && forall e :: e in s ==> Within(e, r) && r.Overrides(e.kind)
  }

  function Copies(e: Entry, n: nat): seq<Entry> { seq(n, k => e) }

  ghost predicate Swallowing(s0: seq<Entry>, dead0: seq<Entry>, r: Request, s: seq<Entry>, dead: seq<Entry>, i: nat) {
    && i == 0 && |s| <= |s0| && s0 != [] && s == s0[|s0| - |s|..]
    && dead == Copies(s0[|s0| - 1], |s0| - |s|) + dead0
  }

  lemma SwallowingStarts(s0: seq<Entry>, dead0: seq<Entry>, r: Request)
    requires s0 != []
    ensures Swallowing(s0, dead0, r, s0, dead0, 0)
  {
    assert Copies(s0[|s0| - 1], 0) + dead0 == dead0;
  }

  lemma SwallowedFirst(s0: seq<Entry>, dead0: seq<Entry>, r: Request, s: seq<Entry>, dead: seq<Entry>, i: nat)
    requires Swallows(s0, r) && Swallowing(s0, dead0, r, s, dead, i) && i < |s|
    ensures Within(s[i], r) && r.Overrides(s[i].kind)
  {
    assert s[0] == s0[|s0| - |s|];
  }

  lemma SwallowingDrop(s0: seq<Entry>, dead0: seq<Entry>, r: Request, s: seq<Entry>, dead: seq<Entry>, i: nat)
    requires Swallowing(s0, dead0, r, s, dead, i) && i < |s|
    ensures Swallowing(s0, dead0, r, s[..i] + s[i + 1..], [s[|s| - 1]] + dead, i)
  {
    var n := |s0| - |s|;
    assert [s0[|s0| - 1]] + Copies(s0[|s0| - 1], n) == Copies(s0[|s0| - 1], n + 1);
    assert [s[|s| - 1]] + dead == Copies(s0[|s0| - 1], n + 1) + dead0;
  }

  // ---------------------------------------------------------------- all of it together

  /** What has become of the slots when the walk has reached slot `i`. */
  ghost predicate Trail(s0: seq<Entry>, dead0: seq<Entry>, r: Request, s: seq<Entry>, dead: seq<Entry>, i: nat) {
    && |s0| + |dead0| == |s| + |dead| == MAX_ENTRIES
    && (r.length > 0 && Commands(s0, r) ==> Tracked(s0, r, s, i))
    && Shed(s0, dead0, r, dead)
    && (Commands(s0, r) ==> Unwritten(s0 + dead0, s + dead, Need(s0, r)))
    && (Swallows(s0, r) ==> Swallowing(s0, dead0, r, s, dead, i))
    && (r.length > 0 && !Busy(s0, r) ==> dead == dead0)
  }

  /** What becomes of the slots once a request has been carried out. */
  ghost predicate Traced(s0: seq<Entry>, dead0: seq<Entry>, r: Request, t: seq<Entry>, dead: seq<Entry>) {
    && |s0| + |dead0| == |t| + |dead| == MAX_ENTRIES
    && Shed(s0, dead0, r, dead)
    && (Commands(s0, r) ==> Unwritten(s0 + dead0, t + dead, Need(s0, r)))
    && (Swallows(s0, r) ==>
        t == [Entry(r.base, r.length, r.kind)] && dead == (Copies(s0[|s0| - 1], |s0|) + dead0)[1..])
    && (r.length > 0 && !Busy(s0, r) ==>
        (exists n: nat :: PlaceAt(s0, r, n) && Placed(s0, r, n, t)) && dead == dead0[|t| - |s0|..])
  }

  lemma SwallowsCommands(s: seq<Entry>, r: Request)
    requires Swallows(s, r)
    ensures Commands(s, r) && r.length > 0
  {
    assert s[0] in s;
  }

  lemma TrailStarts(s: seq<Entry>, dead: seq<Entry>, r: Request)
    requires |s| + |dead| == MAX_ENTRIES
    ensures Trail(s, dead, r, s, dead, 0)
  {
    if s != [] {
      SwallowingStarts(s, dead, r);
    }
  }

  lemma TrailPass(s0: seq<Entry>, dead0: seq<Entry>, r: Request, s: seq<Entry>, dead: seq<Entry>, i: nat, c: Request,
      phase: Phase, lo: nat, hi: nat)
    requires Walk(s0, r, s, i, c, phase, lo, hi) && Trail(s0, dead0, r, s, dead, i) && i < |s|
    requires Apart(s[i], c) || (Inside(s[i], c) && !(c.base == s[i].base <==> s[i].End() == c.End()))
    ensures Trail(s0, dead0, r, s, dead, i + 1)
  {
    hide Ahead, Verdict, Budget, KeepsBlocks, Shed, Unwritten, Tracked, Commands, Swallows, Swallowing, Busy;
    if r.length > 0 && Commands(s0, r) {
      CommandsWhole(s0, r, s, c, lo);
      TrackedPass(s0, r, s, i, lo);
    }
    if Swallows(s0, r) {
      SwallowsCommands(s0, r);
      SwallowedFirst(s0, dead0, r, s, dead, i);
      assert false;
    }
  }

  lemma TrailTrim(s0: seq<Entry>, dead0: seq<Entry>, r: Request, s: seq<Entry>, dead: seq<Entry>, i: nat, c: Request,
      phase: Phase, f: Entry, lo: nat, hi: nat)
    requires Walk(s0, r, s, i, c, phase, lo, hi) && Trail(s0, dead0, r, s, dead, i) && i < |s|
    requires Remnant(s[i], c, f) && c.length > 0
    ensures Trail(s0, dead0, r, s[i := f], dead, i + 1)
  {
    hide Ahead, Verdict, KeepsBlocks, Shed, Tracked, Commands, Swallows, Swallowing, Busy, Straddled;
    BusyAt(s0, r, s, i, c, lo);
    if Commands(s0, r) {
      CommandsWhole(s0, r, s, c, lo);
      TrackedTrim(s0, r, s, i, f, lo);
    }
    if Swallows(s0, r) {
      SwallowsCommands(s0, r);
      SwallowedFirst(s0, dead0, r, s, dead, i);
      assert false;
    }
    assert s[i := f] + dead == (s + dead)[i := f];
  }

  lemma TrailDrop(s0: seq<Entry>, dead0: seq<Entry>, r: Request, s: seq<Entry>, dead: seq<Entry>, i: nat, c: Request,
      phase: Phase, lo: nat, hi: nat)
    requires Walk(s0, r, s, i, c, phase, lo, hi) && Trail(s0, dead0, r, s, dead, i) && i < |s|
    requires Inside(s[i], c) && (c.base == s[i].base <==> s[i].End() == c.End())
    ensures Trail(s0, dead0, r, s[..i] + s[i + 1..], [s[|s| - 1]] + dead, i)
  {
    hide Ahead, Verdict, KeepsBlocks, Shed, Tracked, Commands, Swallows, Swallowing, Busy, Straddled;
    BusyAt(s0, r, s, i, c, lo);
    var t := s[..i] + s[i + 1..];
    if Commands(s0, r) {
      CommandsWhole(s0, r, s, c, lo);
      TrackedDrop(s0, r, s, i, t, lo);
    }
    if Swallows(s0, r) {
      SwallowingDrop(s0, dead0, r, s, dead, i);
    }
    ShedDrop(s0, dead0, r, s, dead, i, c, lo);
    DroppedSlots(s, dead, i);
  }

  /** Deleting an entry writes no slot from the last live one on. */
  lemma DroppedSlots(s: seq<Entry>, dead: seq<Entry>, i: nat)
    requires i < |s|
    ensures Unwritten(s + dead, s[..i] + s[i + 1..] + ([s[|s| - 1]] + dead), |s| - 1)
  {
  }

  lemma TrailNarrow(s0: seq<Entry>, dead0: seq<Entry>, r: Request, s: seq<Entry>, dead: seq<Entry>, i: nat, c: Request,
      phase: Phase, lo: nat, hi: nat)
    requires Walk(s0, r, s, i, c, phase, lo, hi) && Trail(s0, dead0, r, s, dead, i) && i < |s|
    requires Meets(s[i], c) && c.length > 0 && s[i].length > 0 && !c.Overrides(s[i].kind)
    ensures Trail(s0, dead0, r, s, dead, i + 1)
  {
    hide Ahead, Verdict, KeepsBlocks, Shed, Tracked, Commands, Swallows, Swallowing, Busy, Straddled;
    BusyAt(s0, r, s, i, c, lo);
    MetStanding(s0, r, s, i, c, lo);
    if Swallows(s0, r) {
      SwallowsCommands(s0, r);
    }
  }

  /** What remains true while the tail of a split entry is being put back. */
  lemma SplitReaches(s0: seq<Entry>, dead0: seq<Entry>, r: Request, s: seq<Entry>, dead: seq<Entry>, i: nat, c: Request,
      phase: Phase, lo: nat, hi: nat)
    requires Walk(s0, r, s, i, c, phase, lo, hi) && Trail(s0, dead0, r, s, dead, i) && i < |s| && Surrounds(s[i], c)
    ensures r.length > 0 && Commands(s0, r) ==>
        c == r && (ReachesPast(s[i := HeadOf(s[i], c)], TailOf(s[i], c)) <==> ReachesPast(s0, r))
        && (ReachesPast(s0, r) <==> Topmost(s0, r))
    ensures !Swallows(s0, r)
  {
    hide Ahead, Verdict, KeepsBlocks, Budget, Shed, Tracked, Commands, Swallows, Swallowing, Busy, Straddled,
        ReachesPast, Topmost;
    if r.length > 0 && Commands(s0, r) {
      CommandsWhole(s0, r, s, c, lo);
      TrackedTail(s0, r, s, i, lo);
    }
    if Swallows(s0, r) {
      SwallowsCommands(s0, r);
      SwallowedFirst(s0, dead0, r, s, dead, i);
      assert false;
    }
  }

  /** The tail is said by the split entry, as it was before. */
  lemma TailSaid(s0: seq<Entry>, r: Request, s: seq<Entry>, i: nat, c: Request, lo: nat, a: nat)
    requires Sound(s0, r, s, c, lo) && i < |s| && Surrounds(s[i], c) && a >= c.End()
    requires Cover(s[i := HeadOf(s[i], c)], a) != []
    ensures Cover(s[i := HeadOf(s[i], c)], a) == Cover(s0, a)
  {
    hide KeepsBlocks;
    SplitReady(s, i, c, lo);
  }

  lemma TrailSplit(s0: seq<Entry>, dead0: seq<Entry>, r: Request, s: seq<Entry>, dead: seq<Entry>, i: nat, c: Request,
      phase: Phase, lo: nat, hi: nat, s2: seq<Entry>, dead2: seq<Entry>)
    requires Walk(s0, r, s, i, c, phase, lo, hi) && Trail(s0, dead0, r, s, dead, i) && i < |s| && Surrounds(s[i], c)
    requires Walk(s0, r, s2, i + 1, c, Clean, lo, hi) && (c.length > 0 ==> !Meeting(s2, i + 1, c))
    requires r.length > 0 && Commands(s0, r) ==> !Topmost(s0, r)
    requires Traced(s[i := HeadOf(s[i], c)], dead, TailOf(s[i], c), s2, dead2)
    requires Need(s[i := HeadOf(s[i], c)], TailOf(s[i], c)) <= Need(s0, r)
    ensures Trail(s0, dead0, r, s2, dead2, i + 1)
  {
    hide Walk, Traced, Tracked, Commands, Swallows, Swallowing, Busy, Straddled, Topmost, Shed, Unwritten, Need;
    SplitFits(s0, r, s, i, c, phase, lo, hi);
    SplitReaches(s0, dead0, r, s, dead, i, c, phase, lo, hi);
    ShedSplit(s0, dead0, r, s, dead, i, c, phase, lo, hi, s2, dead2);
    if r.length > 0 && Commands(s0, r) {
      SplitTracked(s0, r, s2, i, lo, hi);
    }
    ForcedCommands(s[i := HeadOf(s[i], c)], TailOf(s[i], c));
    if Commands(s0, r) {
      UnwrittenSplit(s0, dead0, r, s, dead, i, c, phase, lo, hi, s2, dead2);
    }
  }

  lemma ShedSplit(s0: seq<Entry>, dead0: seq<Entry>, r: Request, s: seq<Entry>, dead: seq<Entry>, i: nat, c: Request,
      phase: Phase, lo: nat, hi: nat, s2: seq<Entry>, dead2: seq<Entry>)
    requires Walk(s0, r, s, i, c, phase, lo, hi) && Shed(s0, dead0, r, dead) && i < |s| && Surrounds(s[i], c)
    requires Traced(s[i := HeadOf(s[i], c)], dead, TailOf(s[i], c), s2, dead2) && |s| + |dead| == MAX_ENTRIES
    ensures Shed(s0, dead0, r, dead2) && |s2| + |dead2| == MAX_ENTRIES
  {
    hide Ahead, Verdict, KeepsBlocks, Budget, Swallows, Busy, Straddled, Unwritten, Need, Cover, Shed, Placed;
    var h, q := HeadOf(s[i], c), TailOf(s[i], c);
    forall a: nat | a >= q.base && Cover(s[i := h], a) != [] ensures Cover(s[i := h], a) == Cover(s0, a) {
      TailSaid(s0, r, s, i, c, lo, a);
    }
    ShedPart(s0, dead0, r, dead, s[i := h], q, dead2);
  }

  lemma UnwrittenSplit(s0: seq<Entry>, dead0: seq<Entry>, r: Request, s: seq<Entry>, dead: seq<Entry>, i: nat,
      c: Request, phase: Phase, lo: nat, hi: nat, s2: seq<Entry>, dead2: seq<Entry>)
    requires Walk(s0, r, s, i, c, phase, lo, hi) && i < |s| && Surrounds(s[i], c) && Straddled(s0, r)
    requires Commands(s[i := HeadOf(s[i], c)], TailOf(s[i], c))
    requires Unwritten(s0 + dead0, s + dead, Need(s0, r))
    requires Traced(s[i := HeadOf(s[i], c)], dead, TailOf(s[i], c), s2, dead2)
    requires Need(s[i := HeadOf(s[i], c)], TailOf(s[i], c)) <= Need(s0, r)
    ensures Unwritten(s0 + dead0, s2 + dead2, Need(s0, r))
  {
    hide Sound, Ahead, Verdict, Budget, Swallows, Busy, Straddled, Need, Shed, Placed;
    var h, q := HeadOf(s[i], c), TailOf(s[i], c);
    assert s[i := h] + dead == (s + dead)[i := h];
    SplitBudget(s0, r, s, i, c);
    UnwrittenTwice(s0 + dead0, s[i := h] + dead, s2 + dead2, Need(s0, r), Need(s[i := h], q));
  }

  lemma SplitBudget(s0: seq<Entry>, r: Request, s: seq<Entry>, i: nat, c: Request)
    requires Budget(s0, r, s, i, c) && i < |s| && Straddled(s0, r)
    ensures i < Need(s0, r)
  {
  }

  lemma SplitTracked(s0: seq<Entry>, r: Request, s: seq<Entry>, i: nat, lo: nat, hi: nat)
    requires Walk(s0, r, s, i + 1, r, Clean, lo, hi) && !Meeting(s, i + 1, r) && r.length > 0
    requires Straddled(s0, r) && !Topmost(s0, r) && |s| <= MAX_ENTRIES
    ensures Tracked(s0, r, s, i + 1)
  {
    hide Tracked, Topmost, KeepsBlocks, Budget, Ahead;
    var e :| e in s0 && e.base < r.base && r.End() < e.End();
    var k :| 0 <= k < |s0| && s0[k] == e;
    CoverAt(s0, k, r.End());
    assert Cover(s, r.End()) == Cover(s0, r.End());
    forall j | 0 <= j < |s| ensures Apart(s[j], r) && s[j].length > 0 {
      if j >= i + 1 {
        assert !Meets(s[j], r);
      }
    }
    TrackedSplit(s0, r, s, i + 1, lo, r.End());
  }

  /** A walk that has ended without placing anything. */
  lemma TrailEnds(s0: seq<Entry>, dead0: seq<Entry>, r: Request, s: seq<Entry>, dead: seq<Entry>, i: nat, c: Request,
      phase: Phase, lo: nat, hi: nat)
    requires Walk(s0, r, s, i, c, phase, lo, hi) && Trail(s0, dead0, r, s, dead, i)
    requires (r.length > 0 ==> Busy(s0, r)) && (r.length > 0 && Commands(s0, r) ==> c != r)
    ensures Traced(s0, dead0, r, s, dead) && (r.length > 0 ==> !Commands(s0, r))
  {
    hide Ahead, Verdict, KeepsBlocks, Budget, Shed, Tracked, Commands, Swallows, Swallowing, Busy, Straddled;
    if r.length > 0 && Commands(s0, r) {
      CommandsWhole(s0, r, s, c, lo);
    }
    if Swallows(s0, r) {
      SwallowsCommands(s0, r);
    }
  }

  /** Placing a request writes no slot behind the one it adds. */
  lemma PlacedSlots(s: seq<Entry>, dead: seq<Entry>, c: Request, n: nat, t: seq<Entry>)
    requires |s| <= |t| <= |s| + |dead| && n <= |s| && Placed(s, c, n, t)
    ensures |t| <= |s| + 1 && Unwritten(s + dead, t + dead[|t| - |s|..], |s| + 1)
  {
  }

  lemma TrailPlace(s0: seq<Entry>, dead0: seq<Entry>, r: Request, s: seq<Entry>, dead: seq<Entry>, c: Request,
      phase: Phase, lo: nat, hi: nat, n: nat, t: seq<Entry>)
    requires |s| <= |t| <= |s| + |dead| && n <= |s| && c.length > 0
    requires Walk(s0, r, s, |s|, c, phase, lo, hi) && Trail(s0, dead0, r, s, dead, |s|)
    requires PlaceAt(s, c, n) && Placed(s, c, n, t) && |s| + 1 <= Need(s0, r)
    requires r.length > 0 && !Busy(s0, r) ==> s == s0 && c == r
    ensures Traced(s0, dead0, r, t, dead[|t| - |s|..])
  {
    hide Ahead, Verdict, KeepsBlocks, Budget, Tracked, Commands, Swallows, Busy, Straddled;
    PlacedSlots(s, dead, c, n, t);
    if Swallows(s0, r) {
      SwallowsCommands(s0, r);
      CommandsWhole(s0, r, s, c, lo);
      assert s0[|s0|..] == [] && s == [];
      assert t == [Entry(r.base, r.length, r.kind)];
    }
  }

  /** What the last slot decides when the request comes to be placed. */
  lemma TrackedEnd(s0: seq<Entry>, dead0: seq<Entry>, r: Request, s: seq<Entry>, dead: seq<Entry>, c: Request,
      phase: Phase, lo: nat, hi: nat)
    requires Walk(s0, r, s, |s|, c, phase, lo, hi) && Trail(s0, dead0, r, s, dead, |s|) && c.length > 0
    ensures Commands(s0, r) ==> (ReadsPast(s, c) <==> ReachesPast(s0, r))
    ensures ReadsPast(s, c) ==> NothingFrom(s0, r.End())
  {
    hide Ahead, KeepsBlocks, Budget, Commands, Swallows, Swallowing, Busy, Straddled, Shed, Unwritten;
    if Commands(s0, r) {
      CommandsWhole(s0, r, s, c, lo);
    }
    if ReadsPast(s, c) {
      PastNothing(s0, r, s, c, phase, lo);
    }
  }

  /** Looking behind the array, the walk has met nothing that ends above the request. */
  lemma PastNothing(s0: seq<Entry>, r: Request, s: seq<Entry>, c: Request, phase: Phase, lo: nat)
    requires Sound(s0, r, s, c, lo) && Verdict(s0, r, s, |s|, c, phase) && c.length > 0 && ReadsPast(s, c)
    ensures NothingFrom(s0, r.End())
  {
    hide KeepsBlocks, Fits, Rescued;
    forall a: nat | r.End() <= a ensures Cover(s0, a) == [] {
      if Cover(s0, a) != [] {
        assert Cover(s, a) == Cover(s0, a);
        var j := CoverWitness(s, a);
        assert false;
      }
    }
  }

  /** The two halves around an entry that stands. */
  lemma TrailHalves(s0: seq<Entry>, dead0: seq<Entry>, r: Request, s: seq<Entry>, dead: seq<Entry>, i: nat, c: Request,
      phase: Phase, lo: nat, hi: nat, s1: seq<Entry>, dead1: seq<Entry>, t: seq<Entry>, dead2: seq<Entry>)
    requires Walk(s0, r, s, i, c, phase, lo, hi) && Trail(s0, dead0, r, s, dead, i) && i < |s| && Within(s[i], c)
    requires s[i].length > 0 && !c.Overrides(s[i].kind)
    requires Traced(s, dead, c.UpTo(s[i].base), s1, dead1) && Traced(s1, dead1, c.From(s[i].End()), t, dead2)
    requires forall a: nat :: a >= s[i].base ==> Cover(s1, a) == Cover(s, a)
    ensures Traced(s0, dead0, r, t, dead2)
  {
    hide Ahead, Verdict, KeepsBlocks, Budget, Tracked, Commands, Swallows, Swallowing, Busy, Straddled, Shed, Cover;
    TrailNarrow(s0, dead0, r, s, dead, i, c, phase, lo, hi);
    BusyAt(s0, r, s, i, c, lo);
    MetStanding(s0, r, s, i, c, lo);
    if Swallows(s0, r) {
      SwallowsCommands(s0, r);
    }
    var c1, c2 := c.UpTo(s[i].base), c.From(s[i].End());
    ShedPart(s0, dead0, r, dead, s, c1, dead1);
    ShedPart(s0, dead0, r, dead1, s1, c2, dead2);
  }

  /** Adding a range that nobody has described leaves touching entries of one kind exactly when
      it fills a gap between two of its own kind. */
  lemma UnclaimedTouches(s: seq<Entry>, dead: seq<Entry>, r: Request, t: seq<Entry>, dead': seq<Entry>)
    requires Traced(s, dead, r, t, dead') && r.length > 0 && !Busy(s, r) && Touchless(s)
    ensures !Touchless(t) <==> exists n: nat :: PlaceAt(s, r, n) && Bridges(s, r, n)
  {
    hide Shed, Unwritten, Swallows, Touchless, Placed, Bridges;
    var n: nat :| PlaceAt(s, r, n) && Placed(s, r, n, t);
    PlacedTouches(s, r, n, t);
    forall m: nat | PlaceAt(s, r, m) ensures m == n {
      PlaceUnique(s, r, n, m);
    }
  }

  lemma PlaceUnique(s: seq<Entry>, c: Request, n: nat, m: nat)
    requires PlaceAt(s, c, n) && PlaceAt(s, c, m)
    ensures n == m
  {
    if n < m {
      StartsBelow(s, c, m, n);
    } else if m < n {
      StartsBelow(s, c, n, m);
    }
  }

  lemma StartsBelow(s: seq<Entry>, c: Request, n: nat, j: nat)
    requires PlaceAt(s, c, n) && j < n
    ensures s[j].base <= c.base
  {
  }
}
