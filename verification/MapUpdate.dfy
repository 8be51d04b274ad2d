/** Why walking the map once, trimming, splitting and re-issuing pieces of a request,
    carries that request out -- and exactly for which maps it does not. */
module MapUpdate {
  import opened MemoryMap

  // ---------------------------------------------------------------- the exact condition

  /** What is left of a request once the walk is past `e`, an entry ending inside it. */
  function Past(r: Request, e: Entry): Request
    requires e.End() <= r.End()
  {
    if r.Overrides(e.kind) then r else r.From(e.End())
  }

  /** The walk over `s` meets no entry that lies inside what is left of `r` while sharing
      exactly one endpoint with it.  (Such an entry is passed over unless the next one
      starts where it ends and makes the walk restart on exactly that entry.) */
  predicate Fits(s: seq<Entry>, r: Request)
    decreases |s|
  {
    if s == [] then
      true
    else
      var e, rest := s[0], s[1..];
      if e.base >= r.End() then true
      else if e.End() <= r.base then Fits(rest, r)
      else if e.End() > r.End() then true
      else if e.base < r.base then Fits(rest, Past(r, e))
      else if e.base == r.base then e.End() == r.End() || Rescued(rest, e.End(), r)
      else e.End() < r.End() && Fits(rest, Past(r, e))
  }

  /** The entry after `x` starts there, stands against the request and ends inside it. */
  predicate Rescued(s: seq<Entry>, x: nat, r: Request)
    decreases |s|
  {
    && s != []
    && s[0].base == x
    && !r.Overrides(s[0].kind)
    && s[0].End() < r.End()
    && Fits(s[1..], r.From(s[0].End()))
  }

  lemma {:induction false} FitsDrop(s: seq<Entry>, n: nat, r: Request)
    requires n <= |s| && forall j :: 0 <= j < n ==> s[j].End() <= r.base && s[j].length > 0
    ensures Fits(s, r) == Fits(s[n..], r)
  {
    if n == 0 {
      assert s[0..] == s;
    } else {
      FitsDrop(s[1..], n - 1, r);
      assert s[1..][n - 1..] == s[n..];
    }
  }

  ghost predicate Apart(e: Entry, r: Request) {
    r.length == 0 || e.End() <= r.base || r.End() <= e.base
  }

  ghost predicate Surrounds(e: Entry, c: Request) { e.base < c.base && c.End() < e.End() }

  ghost predicate Inside(e: Entry, r: Request) { r.base <= e.base && e.End() <= r.End() }

  lemma {:induction false} FitsApart(s: seq<Entry>, n: nat, r: Request)
    requires n <= |s| && forall j :: n <= j < |s| ==> Apart(s[j], r) && s[j].length > 0
    ensures Fits(s[n..], r)
    decreases |s| - n
  {
    if n < |s| {
      FitsApart(s, n + 1, r);
      assert s[n..][1..] == s[n + 1..];
    }
  }

  // ---------------------------------------------------------------- what one request does

  ghost predicate Straddled(s: seq<Entry>, r: Request) {
    exists e :: e in s && e.base < r.base && r.End() < e.End()
  }

  /** No entry crosses the address `x`. */
  ghost predicate CleanCut(s: seq<Entry>, x: nat) {
    forall e :: e in s && e.base < x ==> e.End() <= x
  }

  /** Requests from `x` on meet the same verdict in both maps. */
  ghost predicate SameAbove(s: seq<Entry>, t: seq<Entry>, x: nat) {
    && CleanCut(t, x)
    && (forall e :: e in t && e.base >= x ==> e in s)
    && (forall q: Request :: q.base >= x ==> Fits(t, q) == Fits(s, q))
  }

  ghost predicate KeepsBlocks(s: seq<Entry>, r: Request, t: seq<Entry>) {
    forall x: nat, y: nat, k :: x < y && (y <= r.base || r.End() <= x) && Holds(s, x, y, k) ==> Holds(t, x, y, k)
  }

  /** `t` is what request `r` makes of `s`, where `s` is tidy from `lo` on and no entry
      crosses `hi`. */
  ghost predicate Post(s: seq<Entry>, r: Request, t: seq<Entry>, lo: nat, hi: nat) {
    && (forall a :: !r.In(a) ==> Cover(t, a) == Cover(s, a))
    && (forall a :: Cover(s, a) != [] || r.In(a) ==> Cover(t, a) != [])
    && (Fits(s, r) ==> Tidy(t, hi) && Carried(s, r, t) && (lo == 0 || lo < r.base ==> Tidy(t, lo)))
    && (!Fits(s, r) ==> Tidy(t, hi) && exists a :: r.In(a) && |Cover(t, a)| >= 2)
    && KeepsBlocks(s, r, t)
    && (!Straddled(s, r) ==> SameAbove(s, t, hi))
    && (r.force && r.length > 0 && Fits(s, r) ==> Holds(t, r.base, r.End(), r.kind))
    && Room(s, r, t)
  }

  /** Entry `n` is of the request's kind, ends where it starts, and is the last to start by then. */
  ghost predicate JoinsAt(s: seq<Entry>, n: nat, r: Request) {
    n < |s| && s[n].kind == r.kind && s[n].End() == r.base && forall j :: n < j < |s| ==> s[j].base > r.base
  }

  /** How the entries themselves may change: not at all for an empty request, and by growing
      a neighbour for a request in unclaimed space that has one. */
  ghost predicate Room(s: seq<Entry>, r: Request, t: seq<Entry>) {
    && (r.length == 0 ==> t == s)
    && (!Busy(s, r) ==> |t| >= |s|)
    && (forall n: nat :: !Busy(s, r) && JoinsAt(s, n, r) ==>
        t == s[n := Entry(s[n].base, s[n].length + r.length, r.kind)])
    && (r.force ==> |t| <= |s| + (if Busy(s, r) then 2 else 1))
  }

  // ---------------------------------------------------------------- the walk

  /** Has the walk passed over an entry it should have removed? */
  datatype Phase = Clean | Stuck | Lost

  /** Part of the walk's invariant: the map `s` and the part `c` of `r` still to place. */
  ghost predicate Sound(s0: seq<Entry>, r: Request, s: seq<Entry>, c: Request, lo: nat) {
    && c.kind == r.kind && c.force == r.force
    && lo <= r.base <= c.base && c.End() <= r.End()
    && Tidy(s0, lo) && Tidy(s, lo)
    && (forall a :: !c.In(a) ==> Cover(s, a) == Cover(s0, a))
    && (forall a :: r.In(a) && !c.In(a) ==> Keeps(r, Cover(s0, a)))
    && (forall a :: c.In(a) ==> Cover(s, a) == Cover(s0, a) || (Cover(s, a) == [] && !Keeps(r, Cover(s0, a))))
    && KeepsBlocks(s0, r, s)
  }

  /** What is known of the entries the walk has yet to reach, unless it split one. */
  ghost predicate Ahead(s0: seq<Entry>, r: Request, s: seq<Entry>, i: nat, c: Request, lo: nat, hi: nat) {
    && r.End() < hi && CleanCut(s0, hi) && (lo == 0 || r.length > 0)
    && (c.length == 0 && r.length > 0 ==> forall j :: i <= j < |s| ==> s[j].base >= c.base)
    && (Meeting(s, i, c) ==> CleanCut(s, hi))
    && (!Straddled(s0, r) ==> SameAbove(s0, s, hi) && Untouched(s0, r, s, i, c))
  }

  ghost predicate Untouched(s0: seq<Entry>, r: Request, s: seq<Entry>, i: nat, c: Request) {
    forall j :: i <= j < |s| && s[j].End() > c.base ==>
      && s[j] in s0
      && (s[j].base < c.base ==> c.base == r.base)
      && (s[j].base < c.End() ==> c.End() == r.End())
  }

  ghost predicate Verdict(s0: seq<Entry>, r: Request, s: seq<Entry>, i: nat, c: Request, phase: Phase)
    requires i <= |s|
  {
    match phase
    case Clean =>
      && (forall j :: 0 <= j < i ==> Apart(s[j], c))
      && (Fits(s0, r) <==> Fits(s[i..], c))
    case Stuck =>
      && 0 < i && s[i - 1].base == c.base && s[i - 1].End() < c.End()
      && (forall j :: 0 <= j < i - 1 ==> s[j].End() <= c.base)
      && (Fits(s0, r) <==> Rescued(s[i..], s[i - 1].End(), c))
    case Lost =>
      && !Fits(s0, r)
      && (exists j :: 0 <= j < i && Inside(s[j], c))
      && (forall j :: 0 <= j < i ==> Apart(s[j], c) || Inside(s[j], c))
      && (forall j :: i <= j < |s| ==> s[j].base >= c.End())
  }

  /** The walk has yet to meet an entry overlapping `c`. */
  ghost predicate Meeting(s: seq<Entry>, i: nat, c: Request) {
    c.length > 0 && exists j :: i <= j < |s| && Meets(s[j], c)
  }

  ghost predicate Meets(e: Entry, c: Request) { e.base < c.End() && c.base < e.End() }

  ghost predicate Budget(s0: seq<Entry>, r: Request, s: seq<Entry>, i: nat, c: Request) {
    && |s| <= |s0| + (if Meeting(s, i, c) || !Straddled(s0, r) then 0 else 1)
    && (r.length == 0 ==> s == s0)
    && (r.length > 0 && !Busy(s0, r) ==> s == s0)
  }

  ghost predicate Walk(s0: seq<Entry>, r: Request, s: seq<Entry>, i: nat, c: Request, phase: Phase, lo: nat, hi: nat) {
    && i <= |s|
    && Sound(s0, r, s, c, lo)
    && Ahead(s0, r, s, i, c, lo, hi)
    && Verdict(s0, r, s, i, c, phase)
    && Budget(s0, r, s, i, c)
  }

  lemma WalkStarts(s: seq<Entry>, r: Request, lo: nat, hi: nat)
    requires Tidy(s, lo) && lo <= r.base && r.End() < hi && CleanCut(s, hi) && (lo == 0 || r.length > 0)
    ensures Walk(s, r, s, 0, r, Clean, lo, hi)
  {
    assert s[0..] == s;
  }

  // ---------------------------------------------------------------- entries left alone

  lemma ApartVerdict(s0: seq<Entry>, r: Request, s: seq<Entry>, i: nat, c: Request, phase: Phase) returns (next: Phase)
    requires i < |s| && Apart(s[i], c)
    requires forall j :: 0 <= j < |s| ==> if j < i then s[j].base <= s[i].base else s[i].base <= s[j].base
    requires forall j :: 0 <= j < |s| ==> s[j].length > 0
    requires Verdict(s0, r, s, i, c, phase)
    ensures Verdict(s0, r, s, i + 1, c, next)
  {
    assert s[i..][0] == s[i] && s[i..][1..] == s[i + 1..];
    next := phase;
    if phase.Clean? && !(s[i].End() <= c.base) {
      FitsApart(s, i + 1, c);
    } else if phase.Stuck? {
      next := Lost;
      assert Inside(s[i - 1], c);
    }
  }

  lemma StepApart(s0: seq<Entry>, r: Request, s: seq<Entry>, i: nat, c: Request, phase: Phase, lo: nat, hi: nat)
      returns (next: Phase)
    requires Walk(s0, r, s, i, c, phase, lo, hi)
    requires i < |s| && Apart(s[i], c)
    ensures Walk(s0, r, s, i + 1, c, next, lo, hi)
    ensures Meeting(s, i + 1, c) ==> Meeting(s, i, c)
  {
    next := ApartVerdict(s0, r, s, i, c, phase);
  }

  // ---------------------------------------------------------------- entries cut back

  /** `f` is what remains of `e` outside the request, on one side of it. */
  ghost predicate Remnant(e: Entry, c: Request, f: Entry) {
    || (e.base < c.base < e.End() <= c.End() && f == Entry(e.base, c.base - e.base, e.kind))
    || (c.base <= e.base < c.End() < e.End() && f == Entry(c.End(), e.End() - c.End(), e.kind))
  }

  /** Replacing one overridden entry by its remnant, or by nothing. */
  ghost predicate Cut(s: seq<Entry>, i: nat, c: Request, es: seq<Entry>)
    requires i < |s|
  {
    && c.Overrides(s[i].kind)
    && (if es == [] then Inside(s[i], c) else |es| == 1 && Remnant(s[i], c, es[0]))
  }

  function Splice(s: seq<Entry>, i: nat, es: seq<Entry>): seq<Entry>
    requires i < |s|
  {
    s[..i] + es + s[i + 1..]
  }

  lemma SpliceNothing(s: seq<Entry>, i: nat)
    requires i < |s|
    ensures Splice(s, i, []) == s[..i] + s[i + 1..]
  {
    assert s[..i] + [] == s[..i];
  }

  lemma CoverOne(e: Entry, a: nat)
    ensures Cover([e], a) == if e.Has(a) then [e.kind] else []
  {
    assert [e][1..] == [];
  }

  lemma CutCover(s: seq<Entry>, i: nat, c: Request, es: seq<Entry>, lo: nat, a: nat)
    requires i < |s| && Cut(s, i, c, es) && Tidy(s, lo) && lo <= c.base
    ensures !c.In(a) ==> Cover(Splice(s, i, es), a) == Cover(s, a)
    ensures c.In(a) ==> Cover(Splice(s, i, es), a) == if s[i].Has(a) then [] else Cover(s, a)
    ensures c.In(a) && s[i].Has(a) ==> Cover(s, a) == [s[i].kind]
  {
    var p, q := s[..i], s[i + 1..];
    CoverConcat(p + es, q, a);
    CoverConcat(p, es, a);
    CoverAt(s, i, a);
    if es != [] {
      assert es == [es[0]];
      CoverOne(es[0], a);
    }
    if s[i].Has(a) && c.In(a) {
      CoverAlone(s, lo, i, a);
    }
  }

  lemma DropTidy(s: seq<Entry>, i: nat, lo: nat)
    requires i < |s| && Tidy(s, lo)
    ensures Tidy(s[..i] + s[i + 1..], lo)
  {
    var t := s[..i] + s[i + 1..];
    forall j, k | 0 <= j < k < |t|
      ensures t[j].base <= t[k].base && (t[j].End() > lo || t[k].End() > lo ==> t[j].End() <= t[k].base)
    {
      var j', k' := if j < i then j else j + 1, if k < i then k else k + 1;
      assert t[j] == s[j'] && t[k] == s[k'];
    }
    assert forall j :: 0 <= j < |t| ==> t[j] == s[if j < i then j else j + 1];
  }

  lemma TrimTidy(s: seq<Entry>, i: nat, f: Entry, lo: nat)
    requires i < |s| && Tidy(s, lo) && lo < s[i].End()
    requires 0 < f.length && f.End() <= s[i].End()
    requires f.base == s[i].base || (s[i].base <= f.base && lo <= s[i].base)
    ensures Tidy(s[i := f], lo)
  {
    var t := s[i := f];
    forall j, k | 0 <= j < k < |t|
      ensures t[j].base <= t[k].base && (t[j].End() > lo || t[k].End() > lo ==> t[j].End() <= t[k].base)
    {
      assert s[j].base <= s[k].base && (s[j].End() > lo || s[k].End() > lo ==> s[j].End() <= s[k].base);
    }
  }

  lemma CutTidy(s: seq<Entry>, i: nat, c: Request, es: seq<Entry>, lo: nat)
    requires i < |s| && Cut(s, i, c, es) && Tidy(s, lo) && lo <= c.base
    ensures Tidy(Splice(s, i, es), lo)
  {
    if es == [] {
      assert Splice(s, i, es) == s[..i] + s[i + 1..];
      DropTidy(s, i, lo);
    } else {
      assert Splice(s, i, es) == s[i := es[0]];
      TrimTidy(s, i, es[0], lo);
    }
  }

  lemma CutHolds(s: seq<Entry>, i: nat, c: Request, es: seq<Entry>, x: nat, y: nat, k: Kind)
    requires i < |s| && Cut(s, i, c, es) && x < y && Holds(s, x, y, k) && (y <= c.base || c.End() <= x)
    ensures Holds(Splice(s, i, es), x, y, k)
  {
    var e :| e in s && e.kind == k && e.base <= x && y <= e.End();
    var j :| 0 <= j < |s| && s[j] == e;
    var t := Splice(s, i, es);
    if j < i {
      assert t[j] == e;
    } else if j > i {
      assert t[j + |es| - 1] == e;
    } else {
      assert t[i] == es[0];
    }
  }

  lemma CutFits(s: seq<Entry>, i: nat, c: Request, es: seq<Entry>, hi: nat, r: Request)
    requires i < |s| && Cut(s, i, c, es) && c.End() < hi && CleanCut(s, hi) && r.base >= hi
    requires forall j :: 0 <= j <= i ==> s[j].base <= s[i].base && s[j].length > 0
    ensures Fits(Splice(s, i, es), r) == Fits(s, r)
  {
    hide Fits, Splice;
    var t := Splice(s, i, es);
    forall j | 0 <= j <= i ensures s[j].End() <= hi {
      assert s[j] in s && s[j].base <= s[i].base;
    }
    SpliceParts(s, i, es);
    FitsDrop(s, i + 1, r);
    FitsDrop(t, i + |es|, r);
  }

  lemma SpliceParts(s: seq<Entry>, i: nat, es: seq<Entry>)
    requires i < |s|
    ensures var t := Splice(s, i, es);
            && |t| == |s| - 1 + |es| && t[i + |es|..] == s[i + 1..]
            && (forall j :: 0 <= j < i ==> t[j] == s[j]) && (forall j :: 0 <= j < |es| ==> t[i + j] == es[j])
  {
  }

  lemma CutCleanCut(s: seq<Entry>, i: nat, c: Request, es: seq<Entry>, lo: nat, hi: nat)
    requires i < |s| && Cut(s, i, c, es) && Tidy(s, lo) && c.End() < hi && CleanCut(s, hi)
    ensures CleanCut(Splice(s, i, es), hi)
  {
    assert s[i] in s;
    forall e | e in Splice(s, i, es) && e.base < hi ensures e.End() <= hi {
      assert e in s || e in es;
    }
  }

  lemma CutSameAbove(s: seq<Entry>, i: nat, c: Request, es: seq<Entry>, lo: nat, hi: nat)
    requires i < |s| && Cut(s, i, c, es) && Tidy(s, lo) && c.End() < hi && CleanCut(s, hi)
    ensures SameAbove(s, Splice(s, i, es), hi)
  {
    CutCleanCut(s, i, c, es, lo, hi);
    forall r: Request | r.base >= hi ensures Fits(Splice(s, i, es), r) == Fits(s, r) {
      CutFits(s, i, c, es, hi, r);
    }
  }

  lemma SameAboveTrans(s: seq<Entry>, t: seq<Entry>, u: seq<Entry>, x: nat)
    requires SameAbove(s, t, x) && SameAbove(t, u, x)
    ensures SameAbove(s, u, x)
  {
  }

  lemma CutSound(s0: seq<Entry>, r: Request, s: seq<Entry>, i: nat, c: Request, es: seq<Entry>, lo: nat)
    requires Sound(s0, r, s, c, lo) && i < |s| && Cut(s, i, c, es)
    ensures Sound(s0, r, Splice(s, i, es), c, lo)
  {
    var t := Splice(s, i, es);
    CutTidy(s, i, c, es, lo);
    forall a: nat
      ensures !c.In(a) ==> Cover(t, a) == Cover(s0, a)
      ensures c.In(a) ==> Cover(t, a) == Cover(s0, a) || (Cover(t, a) == [] && !Keeps(r, Cover(s0, a)))
    {
      CutCover(s, i, c, es, lo, a);
    }
    forall x: nat, y: nat, k | x < y && (y <= r.base || r.End() <= x) && Holds(s0, x, y, k)
      ensures Holds(t, x, y, k)
    {
      CutHolds(s, i, c, es, x, y, k);
    }
  }

  lemma CutUntouched(s0: seq<Entry>, r: Request, s: seq<Entry>, i: nat, c: Request, es: seq<Entry>)
    requires Untouched(s0, r, s, i, c) && i < |s| && Cut(s, i, c, es)
    ensures Untouched(s0, r, Splice(s, i, es), i + |es|, c)
  {
    var t := Splice(s, i, es);
    forall j | i + |es| <= j < |t| ensures t[j] == s[j + 1 - |es|] {
    }
  }

  lemma CutAhead(s0: seq<Entry>, r: Request, s: seq<Entry>, i: nat, c: Request, es: seq<Entry>, lo: nat, hi: nat)
    requires Sound(s0, r, s, c, lo) && Ahead(s0, r, s, i, c, lo, hi) && i < |s| && Cut(s, i, c, es)
    ensures Ahead(s0, r, Splice(s, i, es), i + |es|, c, lo, hi)
  {
    if c.length > 0 {
      assert Meets(s[i], c);
      CutCleanCut(s, i, c, es, lo, hi);
    }
    if !Straddled(s0, r) {
      CutSameAbove(s, i, c, es, lo, hi);
      SameAboveTrans(s0, s, Splice(s, i, es), hi);
      CutUntouched(s0, r, s, i, c, es);
    }
  }

  /** What the condition says of a list that starts with an overridden entry. */
  lemma FitsCut(u: seq<Entry>, c: Request)
    requires u != [] && c.Overrides(u[0].kind) && u[0].length > 0
    requires u[0].base < c.End() && c.base < u[0].End()
    requires Inside(u[0], c) ==> (c.base == u[0].base <==> u[0].End() == c.End())
    ensures Fits(u, c) == (u[0].End() > c.End() || (Inside(u[0], c) && u[0].End() == c.End()) || Fits(u[1..], c))
    ensures forall x :: !Rescued(u, x, c)
  {
  }

  lemma FitsAfter(s: seq<Entry>, i: nat, c: Request, lo: nat)
    requires i < |s| && Tidy(s, lo) && lo <= c.base && c.base < s[i].End() && c.End() <= s[i].End()
    ensures Fits(s[i + 1..], c)
  {
    FitsApart(s, i + 1, c);
  }

  lemma CutVerdict(s0: seq<Entry>, r: Request, s: seq<Entry>, i: nat, c: Request, phase: Phase, es: seq<Entry>,
      lo: nat) returns (next: Phase)
    requires Tidy(s, lo) && lo <= c.base && i < |s| && Cut(s, i, c, es) && c.length > 0
    requires Verdict(s0, r, s, i, c, phase)
    requires es == [] ==> (c.base == s[i].base <==> s[i].End() == c.End())
    ensures Verdict(s0, r, Splice(s, i, es), i + |es|, c, next)
  {
    if phase.Clean? {
      next := Clean;
      CutClean(s0, r, s, i, c, es, lo);
    } else {
      assert phase.Stuck?;
      assert s[i - 1].End() <= s[i].base;
      assert forall j :: i < j < |s| ==> s[i].End() <= s[j].base;
      next := CutStuck(s0, r, s, i, c, es);
    }
  }

  lemma CutClean(s0: seq<Entry>, r: Request, s: seq<Entry>, i: nat, c: Request, es: seq<Entry>, lo: nat)
    requires Tidy(s, lo) && lo <= c.base && i < |s| && Cut(s, i, c, es) && c.length > 0
    requires Verdict(s0, r, s, i, c, Clean)
    requires es == [] ==> (c.base == s[i].base <==> s[i].End() == c.End())
    ensures Verdict(s0, r, Splice(s, i, es), i + |es|, c, Clean)
  {
    var t, e, u := Splice(s, i, es), s[i], s[i..];
    assert u[0] == e && u[1..] == s[i + 1..];
    assert t[i + |es|..] == s[i + 1..];
    assert forall j :: 0 <= j < i ==> t[j] == s[j];
    FitsCut(u, c);
    if e.End() >= c.End() {
      FitsAfter(s, i, c, lo);
    }
  }

  lemma CutStuck(s0: seq<Entry>, r: Request, s: seq<Entry>, i: nat, c: Request, es: seq<Entry>) returns (next: Phase)
    requires 0 < i < |s| && Cut(s, i, c, es) && c.length > 0 && s[i].length > 0
    requires s[i - 1].End() <= s[i].base && forall j :: i < j < |s| ==> s[i].End() <= s[j].base
    requires Verdict(s0, r, s, i, c, Stuck)
    requires es == [] ==> (c.base == s[i].base <==> s[i].End() == c.End())
    ensures Verdict(s0, r, Splice(s, i, es), i + |es|, c, next)
  {
    var t, u := Splice(s, i, es), s[i..];
    assert u[0] == s[i] && u[1..] == s[i + 1..];
    assert t[i + |es|..] == s[i + 1..];
    assert forall j :: 0 <= j < i ==> t[j] == s[j];
    FitsCut(u, c);
    if es == [] {
      next := Stuck;
      assert !Rescued(s[i + 1..], s[i - 1].End(), c);
    } else {
      next := Lost;
      assert Inside(t[i - 1], c);
      forall j | i + 1 <= j < |t| ensures t[j].base >= c.End() {
        assert t[j] == s[j];
      }
    }
  }

  /** An overridden entry is trimmed at one end (`es` is what stays) or deleted. */
  lemma StepCut(s0: seq<Entry>, r: Request, s: seq<Entry>, i: nat, c: Request, phase: Phase, es: seq<Entry>, lo: nat,
      hi: nat) returns (next: Phase)
    requires Walk(s0, r, s, i, c, phase, lo, hi)
    requires i < |s| && Cut(s, i, c, es)
    requires es == [] ==> (c.base == s[i].base <==> s[i].End() == c.End())
    ensures Walk(s0, r, Splice(s, i, es), i + |es|, c, next, lo, hi)
    ensures Meeting(s, i, c)
  {
    CutSound(s0, r, s, i, c, es, lo);
    CutAhead(s0, r, s, i, c, es, lo, hi);
    next := CutVerdict(s0, r, s, i, c, phase, es, lo);
    BusyAt(s0, r, s, i, c, lo);
    var t := Splice(s, i, es);
    assert Meets(s[i], c);
  }

  /** An entry meeting the request shows that some requested address is described. */
  lemma BusyAt(s0: seq<Entry>, r: Request, s: seq<Entry>, i: nat, c: Request, lo: nat)
    requires Sound(s0, r, s, c, lo) && i < |s| && s[i].base < c.End() && c.base < s[i].End() && c.length > 0
    ensures Busy(s0, r)
  {
    var a := if s[i].base < c.base then c.base else s[i].base;
    assert c.In(a) && s[i].Has(a);
    CoverAt(s, i, a);
  }

  // ---------------------------------------------------------------- entries that stand

  /** An entry that stands takes its overlap out of the request, at the request's start or end. */
  ghost predicate Narrowed(e: Entry, c: Request, d: Request) {
    || (e.base < c.base < e.End() <= c.End() && d == c.From(e.End()))
    || (c.base <= e.base < c.End() < e.End() && d == c.UpTo(e.base))
  }

  lemma NarrowSound(s0: seq<Entry>, r: Request, s: seq<Entry>, i: nat, c: Request, d: Request, lo: nat)
    requires Sound(s0, r, s, c, lo) && i < |s| && !c.Overrides(s[i].kind) && Narrowed(s[i], c, d)
    ensures Sound(s0, r, s, d, lo)
  {
    forall a: nat | c.In(a) && !d.In(a)
      ensures Cover(s, a) == Cover(s0, a) && Keeps(r, Cover(s0, a))
    {
      CoverAlone(s, lo, i, a);
    }
  }

  lemma NarrowVerdict(s0: seq<Entry>, r: Request, s: seq<Entry>, i: nat, c: Request, phase: Phase, d: Request, lo: nat)
      returns (next: Phase)
    requires Tidy(s, lo) && lo <= c.base && i < |s| && !c.Overrides(s[i].kind) && Narrowed(s[i], c, d)
    requires Verdict(s0, r, s, i, c, phase)
    ensures Verdict(s0, r, s, i + 1, d, next)
  {
    var u := s[i..];
    assert u[0] == s[i] && u[1..] == s[i + 1..];
    next := phase;
    match phase
    case Clean =>
      if d.End() < c.End() {
        FitsApart(s, i + 1, d);
      }
    case Stuck =>
      next := Lost;
      assert Inside(s[i - 1], d);
    case Lost =>
      assert false;
  }

  lemma NarrowAhead(s0: seq<Entry>, r: Request, s: seq<Entry>, i: nat, c: Request, d: Request, lo: nat, hi: nat)
    requires Sound(s0, r, s, c, lo) && Ahead(s0, r, s, i, c, lo, hi)
    requires i < |s| && Narrowed(s[i], c, d)
    ensures Ahead(s0, r, s, i + 1, d, lo, hi)
  {
    assert Meets(s[i], c);
    forall j | !Straddled(s0, r) && i + 1 <= j < |s| && s[j].End() > d.base
      ensures s[j].base < d.base ==> d.base == r.base
      ensures s[j].base < d.End() ==> d.End() == r.End()
    {
      assert s[i].base <= s[j].base;
    }
  }

  lemma StepNarrow(s0: seq<Entry>, r: Request, s: seq<Entry>, i: nat, c: Request, phase: Phase, d: Request, lo: nat,
      hi: nat) returns (next: Phase)
    requires Walk(s0, r, s, i, c, phase, lo, hi)
    requires i < |s| && !c.Overrides(s[i].kind) && Narrowed(s[i], c, d)
    ensures Walk(s0, r, s, i + 1, d, next, lo, hi)
    ensures Meeting(s, i, c)
  {
    NarrowSound(s0, r, s, i, c, d, lo);
    NarrowAhead(s0, r, s, i, c, d, lo, hi);
    next := NarrowVerdict(s0, r, s, i, c, phase, d, lo);
    BusyAt(s0, r, s, i, c, lo);
    assert Meets(s[i], c);
  }

  /** An entry inside the request that shares exactly one endpoint with it: no branch applies. */
  lemma StepStuck(s0: seq<Entry>, r: Request, s: seq<Entry>, i: nat, c: Request, phase: Phase, lo: nat, hi: nat)
      returns (next: Phase)
    requires Walk(s0, r, s, i, c, phase, lo, hi)
    requires i < |s| && Inside(s[i], c) && !(c.base == s[i].base <==> s[i].End() == c.End())
    ensures Walk(s0, r, s, i + 1, c, next, lo, hi)
    ensures Meeting(s, i + 1, c) ==> Meeting(s, i, c)
  {
    hide Fits, SameAbove, CleanCut, KeepsBlocks, Busy, Straddled, Keeps, Cover, Verdict;
    if phase.Clean? {
      next := StuckClean(s0, r, s, i, c);
    } else {
      next := StuckAgain(s0, r, s, i, c, phase);
    }
  }

  lemma StuckClean(s0: seq<Entry>, r: Request, s: seq<Entry>, i: nat, c: Request) returns (next: Phase)
    requires i < |s| && s[i].length > 0 && Verdict(s0, r, s, i, c, Clean)
    requires forall j :: 0 <= j < i ==> s[j].base <= s[i].base
    requires forall j :: i < j < |s| ==> s[i].End() <= s[j].base
    requires Inside(s[i], c) && !(c.base == s[i].base <==> s[i].End() == c.End())
    ensures Verdict(s0, r, s, i + 1, c, next)
  {
    var u := s[i..];
    assert u[0] == s[i] && u[1..] == s[i + 1..];
    next := if s[i].base == c.base then Stuck else Lost;
  }

  lemma StuckAgain(s0: seq<Entry>, r: Request, s: seq<Entry>, i: nat, c: Request, phase: Phase) returns (next: Phase)
    requires i < |s| && s[i].length > 0 && Verdict(s0, r, s, i, c, phase) && !phase.Clean?
    requires forall j :: 0 <= j < i ==> s[j].End() <= s[i].base && s[j].length > 0
    requires forall j :: i < j < |s| ==> s[i].End() <= s[j].base
    requires Inside(s[i], c) && !(c.base == s[i].base <==> s[i].End() == c.End())
    ensures Verdict(s0, r, s, i + 1, c, next)
  {
    assert phase.Stuck?;
    assert s[i..][0] == s[i];
    assert Inside(s[i - 1], c);
    next := Lost;
  }

  /** The whole remaining request lies in an entry that stands: nothing is left to do. */
  lemma StandsWhole(s0: seq<Entry>, r: Request, s: seq<Entry>, i: nat, c: Request, phase: Phase, lo: nat, hi: nat)
    requires Walk(s0, r, s, i, c, phase, lo, hi)
    requires i < |s| && !c.Overrides(s[i].kind)
    requires (s[i].base < c.base && c.End() < s[i].End()) || (s[i].base == c.base && c.End() == s[i].End())
    ensures Post(s0, r, s, lo, hi)
  {
    hide SameAbove, CleanCut, KeepsBlocks, Straddled, Untouched, Fits, Verdict, Carried, Busy, JoinsAt;
    StandsFits(s0, r, s, i, c, phase);
    StandsCarried(s0, r, s, i, c, lo);
    if r.length > 0 {
      BusyAt(s0, r, s, i, c, lo);
    } else {
      EmptyRoom(s, r);
    }
  }

  lemma EmptyRoom(s: seq<Entry>, r: Request)
    requires r.length == 0
    ensures Room(s, r, s)
  {
    forall n: nat | JoinsAt(s, n, r) ensures s == s[n := Entry(s[n].base, s[n].length + r.length, r.kind)] {
    }
  }

  lemma StandsFits(s0: seq<Entry>, r: Request, s: seq<Entry>, i: nat, c: Request, phase: Phase)
    requires i < |s| && s[i].length > 0 && Verdict(s0, r, s, i, c, phase)
    requires Surrounds(s[i], c) || (s[i].base == c.base && c.End() == s[i].End())
    requires forall j :: 0 <= j < i ==> s[j].End() <= s[i].base && s[j].length > 0
    ensures Fits(s0, r)
  {
    var u := s[i..];
    assert u[0] == s[i] && u[1..] == s[i + 1..];
    assert phase.Clean?;
  }

  lemma StandsCarried(s0: seq<Entry>, r: Request, s: seq<Entry>, i: nat, c: Request, lo: nat)
    requires Sound(s0, r, s, c, lo) && i < |s| && !c.Overrides(s[i].kind)
    requires s[i].base <= c.base && c.End() <= s[i].End()
    ensures Carried(s0, r, s)
    ensures forall a :: c.In(a) ==> Cover(s, a) == [s[i].kind]
  {
    forall a: nat | c.In(a) ensures Cover(s, a) == [s[i].kind] {
      CoverAlone(s, lo, i, a);
    }
  }

  /** Nothing of the request is left to place. */
  lemma NothingLeft(s0: seq<Entry>, r: Request, s: seq<Entry>, c: Request, phase: Phase, lo: nat, hi: nat)
    requires Walk(s0, r, s, |s|, c, phase, lo, hi) && c.length == 0
    ensures Post(s0, r, s, lo, hi)
  {
    hide SameAbove, CleanCut, KeepsBlocks, Straddled, Untouched, Fits, Verdict, Busy, JoinsAt, Tidy, Budget;
    NothingFits(s0, r, s, c, phase, lo);
    TidyUp(s, lo, hi);
    if r.length > 0 {
      KeptWhole(s0, r, s, c, lo);
    } else {
      NothingRequested(s0, r, s, c);
      EmptyRoom(s, r);
    }
  }

  lemma NothingRequested(s0: seq<Entry>, r: Request, s: seq<Entry>, c: Request)
    requires Budget(s0, r, s, |s|, c) && r.length == 0
    ensures s == s0
  {
  }

  lemma NothingFits(s0: seq<Entry>, r: Request, s: seq<Entry>, c: Request, phase: Phase, lo: nat)
    requires Verdict(s0, r, s, |s|, c, phase) && c.length == 0 && Tidy(s, lo)
    ensures Fits(s0, r) && Tidy(s, lo)
  {
    assert s[|s|..] == [];
    assert phase.Clean?;
  }

  /** A request of which nothing is left was not forced, and met an entry. */
  lemma KeptWhole(s0: seq<Entry>, r: Request, s: seq<Entry>, c: Request, lo: nat)
    requires Sound(s0, r, s, c, lo) && c.length == 0 && r.length > 0
    ensures Busy(s0, r) && !r.force
  {
    assert r.In(r.base) && Keeps(r, Cover(s0, r.base));
  }

  // ---------------------------------------------------------------- an entry split in two

  /** The upper part of an entry around the request, put back as a request of its own. */
  function TailOf(e: Entry, c: Request): Request
    requires c.End() <= e.End()
  {
    Request(c.End(), e.End() - c.End(), e.kind, true)
  }

  function HeadOf(e: Entry, c: Request): Entry
    requires e.base <= c.base
  {
    Entry(e.base, c.base - e.base, e.kind)
  }

  lemma SplitReady(s: seq<Entry>, i: nat, c: Request, lo: nat)
    requires Tidy(s, lo) && lo <= c.base && i < |s| && Surrounds(s[i], c)
    ensures var s1, t := s[i := HeadOf(s[i], c)], TailOf(s[i], c);
            Tidy(s1, lo) && t.End() < ADDRESS_LIMIT && CleanCut(s1, ADDRESS_LIMIT)
            && Fits(s1, t) && forall j :: 0 <= j < |s1| ==> Apart(s1[j], t)
    ensures forall a: nat :: Cover(s[i := HeadOf(s[i], c)], a) == if s[i].Has(a) && a >= c.base then [] else Cover(s, a)
    ensures forall a: nat :: s[i].Has(a) && a >= c.base ==> Cover(s, a) == [s[i].kind]
  {
    var e, h := s[i], HeadOf(s[i], c);
    var s1, t := s[i := h], TailOf(e, c);
    TrimTidy(s, i, h, lo);
    forall j | 0 <= j < |s1| ensures Apart(s1[j], t) {
      if j < i {
        assert s[j].End() <= e.base;
      } else if j > i && s[j].End() > lo {
        assert e.End() <= s[j].base;
      }
    }
    FitsApart(s1, 0, t);
    assert s1[0..] == s1;
    forall a: nat
      ensures Cover(s1, a) == if e.Has(a) && a >= c.base then [] else Cover(s, a)
      ensures e.Has(a) && a >= c.base ==> Cover(s, a) == [e.kind]
    {
      CoverAt(s, i, a);
      CoverAt(s1, i, a);
      assert s1[..i] == s[..i] && s1[i + 1..] == s[i + 1..];
      if e.Has(a) && a >= c.base {
        CoverAlone(s, lo, i, a);
      }
    }
  }

  lemma ApartNotBusy(s: seq<Entry>, t: Request)
    requires forall j :: 0 <= j < |s| ==> Apart(s[j], t)
    ensures !Busy(s, t)
  {
    forall a | t.In(a) ensures Cover(s, a) == [] {
      CoverNone(s, a);
    }
  }

  lemma EmptyCoverApart(s: seq<Entry>, c: Request)
    requires forall a :: c.In(a) ==> Cover(s, a) == []
    requires forall j :: 0 <= j < |s| ==> s[j].length > 0
    ensures forall j :: 0 <= j < |s| ==> Apart(s[j], c)
  {
    forall j | 0 <= j < |s| ensures Apart(s[j], c) {
      if !Apart(s[j], c) {
        var a := if s[j].base < c.base then c.base else s[j].base;
        CoverAt(s, j, a);
        assert c.In(a) && s[j].Has(a);
      }
    }
  }

  lemma SplitSound(s0: seq<Entry>, r: Request, s: seq<Entry>, i: nat, c: Request, s2: seq<Entry>, lo: nat)
    requires Sound(s0, r, s, c, lo) && i < |s| && Surrounds(s[i], c) && c.Overrides(s[i].kind)
    requires c.length > 0 || lo == 0
    requires Post(s[i := HeadOf(s[i], c)], TailOf(s[i], c), s2, lo, ADDRESS_LIMIT)
    ensures Sound(s0, r, s2, c, lo)
    ensures forall a :: c.In(a) ==> Cover(s2, a) == []
  {
    hide Straddled, Fits, SameAbove, Busy, JoinsAt, Room, Tidy, Cover;
    var e, s1, t := s[i], s[i := HeadOf(s[i], c)], TailOf(s[i], c);
    SplitReady(s, i, c, lo);
    SplitCovers(s, i, c, s2, lo);
    forall a: nat | c.In(a)
      ensures Cover(s2, a) == [] && !Keeps(r, Cover(s0, a))
    {
      assert e.Has(a);
    }
    forall x: nat, y: nat, k | x < y && (y <= r.base || r.End() <= x) && Holds(s0, x, y, k)
      ensures Holds(s2, x, y, k)
    {
      SplitHolds(s, i, c, s2, lo, x, y, k);
    }
  }

  /** Of what the entry covered, the range of the request is gone. */
  lemma SplitCovers(s: seq<Entry>, i: nat, c: Request, s2: seq<Entry>, lo: nat)
    requires Tidy(s, lo) && lo <= c.base && i < |s| && Surrounds(s[i], c)
    requires Carried(s[i := HeadOf(s[i], c)], TailOf(s[i], c), s2)
    ensures forall a: nat :: Cover(s2, a) == if c.In(a) then [] else Cover(s, a)
  {
    hide Tidy, Fits, CleanCut;
    var s1, t := s[i := HeadOf(s[i], c)], TailOf(s[i], c);
    SplitReady(s, i, c, lo);
    forall a: nat ensures Cover(s2, a) == if c.In(a) then [] else Cover(s, a) {
      assert Cover(s2, a) == Want(t, a, Cover(s1, a));
      if t.In(a) {
        assert s[i].Has(a) && !Keeps(t, []);
      } else {
        assert c.In(a) <==> s[i].Has(a) && a >= c.base;
      }
    }
  }

  lemma SplitHolds(s: seq<Entry>, i: nat, c: Request, s2: seq<Entry>, lo: nat, x: nat, y: nat, k: Kind)
    requires Tidy(s, lo) && lo <= c.base && i < |s| && Surrounds(s[i], c)
    requires KeepsBlocks(s[i := HeadOf(s[i], c)], TailOf(s[i], c), s2)
    requires Holds(s2, c.End(), s[i].End(), s[i].kind)
    requires x < y && (y <= c.base || c.End() <= x) && Holds(s, x, y, k)
    ensures Holds(s2, x, y, k)
  {
    var s1, t := s[i := HeadOf(s[i], c)], TailOf(s[i], c);
    var f :| f in s && f.kind == k && f.base <= x && y <= f.End();
    var j :| 0 <= j < |s| && s[j] == f;
    if j != i || y <= c.base {
      assert s1[j] in s1;
      assert Holds(s1, x, y, k);
      assert y <= t.base || t.End() <= x by {
        assert j > i && s[j].End() > lo ==> s[i].End() <= s[j].base;
      }
    }
  }

  lemma SplitFits(s0: seq<Entry>, r: Request, s: seq<Entry>, i: nat, c: Request, phase: Phase, lo: nat, hi: nat)
    requires Walk(s0, r, s, i, c, phase, lo, hi) && i < |s| && Surrounds(s[i], c)
    ensures phase.Clean? && Fits(s0, r) && Straddled(s0, r)
    ensures r.length > 0 ==> Busy(s0, r)
  {
    var u := s[i..];
    assert u[0] == s[i];
    assert phase.Clean? && Fits(s0, r);
    assert Untouched(s0, r, s, i, c) ==> s[i] in s0;
    if c.length > 0 {
      BusyAt(s0, r, s, i, c, lo);
    }
  }

  /** The request lies strictly inside an overridden entry: its head stays, its tail is put
      back, and nothing ahead of the walk meets the request any more. */
  lemma StepSplit(s0: seq<Entry>, r: Request, s: seq<Entry>, i: nat, c: Request, phase: Phase, s2: seq<Entry>, lo: nat,
      hi: nat)
    requires Walk(s0, r, s, i, c, phase, lo, hi)
    requires i < |s| && Surrounds(s[i], c) && c.Overrides(s[i].kind)
    requires Sound(s0, r, s2, c, lo) && (forall a :: c.In(a) ==> Cover(s2, a) == [])
    requires Room(s[i := HeadOf(s[i], c)], TailOf(s[i], c), s2)
    ensures Walk(s0, r, s2, i + 1, c, Clean, lo, hi)
    ensures if Meeting(s, i, c) then !Meeting(s2, i + 1, c) else c.length == 0 && |s2| == |s|
  {
    SplitFits(s0, r, s, i, c, phase, lo, hi);
    SplitRoom(s, i, c, s2, lo);
    SplitVerdict(s0, r, s2, i, c);
    assert Meets(s[i], c);
  }

  lemma SplitVerdict(s0: seq<Entry>, r: Request, s2: seq<Entry>, i: nat, c: Request)
    requires Fits(s0, r) && i < |s2|
    requires forall a :: c.In(a) ==> Cover(s2, a) == []
    requires forall j :: 0 <= j < |s2| ==> s2[j].length > 0
    ensures Verdict(s0, r, s2, i + 1, c, Clean) && !Meeting(s2, i + 1, c)
  {
    EmptyCoverApart(s2, c);
    FitsApart(s2, i + 1, c);
  }

  lemma SplitRoom(s: seq<Entry>, i: nat, c: Request, s2: seq<Entry>, lo: nat)
    requires Tidy(s, lo) && lo <= c.base && i < |s| && Surrounds(s[i], c)
    requires Room(s[i := HeadOf(s[i], c)], TailOf(s[i], c), s2)
    ensures |s| <= |s2| <= |s| + 1 && (c.length == 0 ==> s2 == s)
  {
    SplitReady(s, i, c, lo);
    ApartNotBusy(s[i := HeadOf(s[i], c)], TailOf(s[i], c));
    SplitJoins(s, i, c, lo);
  }

  lemma SplitJoins(s: seq<Entry>, i: nat, c: Request, lo: nat)
    requires Tidy(s, lo) && lo <= c.base && i < |s| && Surrounds(s[i], c)
    ensures c.length == 0 ==> JoinsAt(s[i := HeadOf(s[i], c)], i, TailOf(s[i], c))
  {
    var s1 := s[i := HeadOf(s[i], c)];
    assert s1[i].End() == c.base;
  }

  // ---------------------------------------------------------------- a request split in two

  ghost predicate Within(e: Entry, c: Request) { c.base < e.base && e.End() < c.End() }

  /** Where the second half of a request may start from: the map is tidy only above it if
      the first half went wrong. */
  ghost function SecondLo(s: seq<Entry>, e: Entry, c: Request, lo: nat): nat
    requires c.base <= e.base
  {
    if Fits(s, c.UpTo(e.base)) && (lo == 0 || lo < c.base) then lo else e.End()
  }

  lemma FirstReady(s: seq<Entry>, i: nat, c: Request, lo: nat)
    requires Tidy(s, lo) && lo <= c.base && i < |s| && Within(s[i], c)
    ensures CleanCut(s, s[i].End()) && !Straddled(s, c.UpTo(s[i].base))
  {
    var e := s[i];
    forall f | f in s
      ensures f.base < e.End() ==> f.End() <= e.End()
      ensures f.base < c.base ==> f.End() <= e.base
    {
      var j :| 0 <= j < |s| && s[j] == f;
      assert j < i ==> s[j].End() <= s[i].base;
      assert i < j ==> s[i].End() <= s[j].base;
    }
  }

  lemma HalvesFit(s0: seq<Entry>, r: Request, s: seq<Entry>, i: nat, c: Request, phase: Phase)
    requires i < |s| && Within(s[i], c) && !c.Overrides(s[i].kind)
    requires forall j :: 0 <= j < i ==> s[j].End() <= s[i].base && s[j].length > 0
    requires s[i].length > 0 && Verdict(s0, r, s, i, c, phase)
    ensures Fits(s0, r) <==> Fits(s, c.UpTo(s[i].base)) && Fits(s, c.From(s[i].End()))
  {
    var e, u := s[i], s[i..];
    assert u[0] == e && u[1..] == s[i + 1..];
    FitsDrop(s, i + 1, c.From(e.End()));
    match phase
    case Clean =>
      FitsDrop(s, i, c.UpTo(e.base));
    case Stuck =>
      var v := s[i - 1..];
      assert v[0] == s[i - 1] && v[1..] == u;
      FitsDrop(s, i - 1, c.UpTo(e.base));
    case Lost =>
      assert false;
  }

  lemma HalvesReady(s0: seq<Entry>, r: Request, s: seq<Entry>, i: nat, c: Request, phase: Phase, lo: nat, hi: nat)
    requires Walk(s0, r, s, i, c, phase, lo, hi)
    requires i < |s| && Within(s[i], c) && !c.Overrides(s[i].kind)
    ensures CleanCut(s, s[i].End()) && !Straddled(s, c.UpTo(s[i].base))
    ensures Fits(s0, r) <==> Fits(s, c.UpTo(s[i].base)) && Fits(s, c.From(s[i].End()))
    ensures Busy(s0, r) && s[i].length > 0
  {
    BusyAt(s0, r, s, i, c, lo);
    FirstReady(s, i, c, lo);
    HalvesFit(s0, r, s, i, c, phase);
  }

  lemma SecondReady(s: seq<Entry>, e: Entry, c: Request, s1: seq<Entry>, lo: nat, hi: nat)
    requires Within(e, c) && CleanCut(s, hi) && c.End() < hi && e.length > 0
    requires Post(s, c.UpTo(e.base), s1, lo, e.End()) && !Straddled(s, c.UpTo(e.base))
    ensures Tidy(s1, SecondLo(s, e, c, lo)) && CleanCut(s1, hi)
    ensures Fits(s1, c.From(e.End())) == Fits(s, c.From(e.End()))
  {
  }

  /** The two halves around an entry that stands add up to the request. */
  lemma HalvesCarried(s0: seq<Entry>, r: Request, s: seq<Entry>, i: nat, c: Request, s1: seq<Entry>, s2: seq<Entry>,
      lo: nat)
    requires Sound(s0, r, s, c, lo) && i < |s| && Within(s[i], c) && !c.Overrides(s[i].kind)
    requires Carried(s, c.UpTo(s[i].base), s1) && Carried(s1, c.From(s[i].End()), s2)
    ensures Carried(s0, r, s2)
  {
    hide Tidy, KeepsBlocks;
    var e := s[i];
    var c1, c2 := c.UpTo(e.base), c.From(e.End());
    forall a: nat ensures Cover(s2, a) == Want(r, a, Cover(s0, a)) {
      assert Cover(s2, a) == Want(c2, a, Want(c1, a, Cover(s, a)));
      if e.Has(a) {
        CoverAlone(s, lo, i, a);
      }
    }
  }

  lemma HalvesFrame(s0: seq<Entry>, r: Request, s: seq<Entry>, i: nat, c: Request, s1: seq<Entry>, s2: seq<Entry>,
      lo: nat)
    requires Sound(s0, r, s, c, lo) && i < |s| && Within(s[i], c)
    requires var c1 := c.UpTo(s[i].base);
             (forall a :: !c1.In(a) ==> Cover(s1, a) == Cover(s, a))
                 && (forall a :: Cover(s, a) != [] || c1.In(a) ==> Cover(s1, a) != [])
    requires var c2 := c.From(s[i].End());
             (forall a :: !c2.In(a) ==> Cover(s2, a) == Cover(s1, a))
                 && (forall a :: Cover(s1, a) != [] || c2.In(a) ==> Cover(s2, a) != [])
    ensures forall a :: !r.In(a) ==> Cover(s2, a) == Cover(s0, a)
    ensures forall a :: Cover(s0, a) != [] || r.In(a) ==> Cover(s2, a) != []
  {
    var e := s[i];
    var c1, c2 := c.UpTo(e.base), c.From(e.End());
    forall a: nat | Cover(s0, a) != [] || r.In(a) ensures Cover(s2, a) != [] {
      if e.Has(a) {
        CoverAlone(s, lo, i, a);
      }
      assert c.In(a) ==> c1.In(a) || c2.In(a) || e.Has(a);
    }
  }

  lemma SameAboveUp(s: seq<Entry>, t: seq<Entry>, x: nat, y: nat)
    requires SameAbove(s, t, x) && x <= y && CleanCut(s, y)
    ensures SameAbove(s, t, y)
  {
  }

  lemma HalvesAbove(s0: seq<Entry>, r: Request, s: seq<Entry>, i: nat, c: Request, s1: seq<Entry>, s2: seq<Entry>,
      lo: nat, hi: nat)
    requires Ahead(s0, r, s, i, c, lo, hi) && c.End() <= r.End() && i < |s| && Within(s[i], c) && CleanCut(s, hi)
    requires SameAbove(s, s1, s[i].End())
    requires !Straddled(s1, c.From(s[i].End())) ==> SameAbove(s1, s2, hi)
    ensures !Straddled(s0, r) ==> SameAbove(s0, s2, hi)
  {
    if !Straddled(s0, r) {
      SameAboveUp(s, s1, s[i].End(), hi);
      assert !Straddled(s1, c.From(s[i].End()));
      SameAboveTrans(s0, s, s1, hi);
      SameAboveTrans(s0, s1, s2, hi);
    }
  }

  lemma HalvesBad(s: seq<Entry>, r: Request, e: Entry, c: Request, s1: seq<Entry>, s2: seq<Entry>, lo: nat, hi: nat)
    requires Within(e, c) && r.base <= c.base && c.End() <= r.End() < hi && e.length > 0 && lo <= c.base
    requires Post(s, c.UpTo(e.base), s1, lo, e.End())
    requires Post(s1, c.From(e.End()), s2, SecondLo(s, e, c, lo), hi)
    requires !Fits(s, c.UpTo(e.base)) || !Fits(s1, c.From(e.End()))
    ensures Tidy(s2, hi) && exists a :: r.In(a) && |Cover(s2, a)| >= 2
  {
    var c1, c2 := c.UpTo(e.base), c.From(e.End());
    if !Fits(s1, c2) {
      var a :| c2.In(a) && |Cover(s2, a)| >= 2;
      assert r.In(a);
    } else {
      var a :| c1.In(a) && |Cover(s1, a)| >= 2;
      assert r.In(a) && !c2.In(a);
      assert Cover(s2, a) == Cover(s1, a);
    }
  }

  lemma HalvesBlocks(s0: seq<Entry>, r: Request, s: seq<Entry>, e: Entry, c: Request, s1: seq<Entry>, s2: seq<Entry>)
    requires Within(e, c) && r.base <= c.base && c.End() <= r.End() && KeepsBlocks(s0, r, s)
    requires KeepsBlocks(s, c.UpTo(e.base), s1) && KeepsBlocks(s1, c.From(e.End()), s2)
    ensures KeepsBlocks(s0, r, s2)
  {
  }

  /** The request goes around an entry that stands: re-issuing the two halves carries out
      the whole, exactly when both halves fit. */
  lemma StepHalves(s0: seq<Entry>, r: Request, s: seq<Entry>, i: nat, c: Request, phase: Phase, s1: seq<Entry>,
      s2: seq<Entry>, lo: nat, hi: nat)
    requires Walk(s0, r, s, i, c, phase, lo, hi)
    requires i < |s| && Within(s[i], c) && !c.Overrides(s[i].kind)
    requires Post(s, c.UpTo(s[i].base), s1, lo, s[i].End())
    requires Post(s1, c.From(s[i].End()), s2, SecondLo(s, s[i], c, lo), hi)
    ensures Post(s0, r, s2, lo, hi)
  {
    hide Fits, Tidy, SameAbove, Carried, KeepsBlocks, Verdict, Straddled, CleanCut, Untouched, Busy, JoinsAt, Budget,
        Holds, Cover;
    var e := s[i];
    assert Meets(e, c);
    HalvesReady(s0, r, s, i, c, phase, lo, hi);
    SecondReady(s, e, c, s1, lo, hi);
    HalvesFrame(s0, r, s, i, c, s1, s2, lo);
    HalvesAbove(s0, r, s, i, c, s1, s2, lo, hi);
    HalvesBlocks(s0, r, s, e, c, s1, s2);
    if Fits(s0, r) {
      HalvesCarried(s0, r, s, i, c, s1, s2, lo);
    } else {
      HalvesBad(s, r, e, c, s1, s2, lo, hi);
    }
  }

  // ---------------------------------------------------------------- placing what is left

  /** `t` describes `c` once more than `s` does, as its own kind, and the rest alike. */
  ghost predicate Added(s: seq<Entry>, c: Request, t: seq<Entry>) {
    && (forall a :: !c.In(a) ==> Cover(t, a) == Cover(s, a))
    && (forall a :: c.In(a) ==> |Cover(t, a)| == |Cover(s, a)| + 1)
    && (forall a :: c.In(a) && Cover(s, a) == [] ==> Cover(t, a) == [c.kind])
  }

  /** `n` entries start at or below the request; the others start above it. */
  ghost predicate PlaceAt(s: seq<Entry>, c: Request, n: nat) {
    && n <= |s|
    && (forall j :: 0 <= j < n ==> s[j].base <= c.base)
    && (forall j :: n <= j < |s| ==> s[j].base > c.base)
  }

  /** The three ways of placing a request that nothing stands in the way of: it grows the
      entry ending where it starts, or the one starting where it ends, or is a new one. */
  ghost predicate Placed(s: seq<Entry>, c: Request, n: nat, t: seq<Entry>)
    requires n <= |s|
  {
    if n > 0 && s[n - 1].kind == c.kind && s[n - 1].End() == c.base then
      t == s[n - 1 := Entry(s[n - 1].base, s[n - 1].length + c.length, c.kind)]
    else if n < |s| && s[n].kind == c.kind && s[n].base == c.End() then
      t == s[n := Entry(c.base, s[n].length + c.length, c.kind)]
    else
      t == s[..n] + [Entry(c.base, c.length, c.kind)] + s[n..]
  }

  /** Entries `k` and `k + 1` are of one kind, and the second starts where the first ends. */
  ghost predicate Touching(s: seq<Entry>, k: nat) {
    k + 1 < |s| && s[k].kind == s[k + 1].kind && s[k].End() == s[k + 1].base
  }

  ghost predicate Touchless(s: seq<Entry>) { forall k: nat :: !Touching(s, k) }

  /** The request fills the gap before entry `n`, between entries of its own kind. */
  ghost predicate Bridges(s: seq<Entry>, c: Request, n: nat) {
    0 < n < |s| && s[n - 1].kind == c.kind == s[n].kind && s[n - 1].End() == c.base && c.End() == s[n].base
  }

  /** Placing a request leaves two entries that touch exactly when it fills a gap between two of
      its own kind: it is merged with the left one only. */
  lemma PlacedTouches(s: seq<Entry>, c: Request, n: nat, t: seq<Entry>)
    requires Touchless(s) && c.length > 0 && n <= |s| && Placed(s, c, n, t)
    ensures !Touchless(t) <==> Bridges(s, c, n)
  {
    if Bridges(s, c, n) {
      assert Touching(t, n - 1);
    } else {
      forall k: nat ensures !Touching(t, k) {
        assert !Touching(s, k) && (k > 0 ==> !Touching(s, k - 1));
      }
    }
  }

  /** A free page between two others. */
  lemma TouchingWitness()
    ensures var s := [Entry(0x1000, 0x1000, Free), Entry(0x3000, 0x1000, Free)];
            var t := [Entry(0x1000, 0x2000, Free), Entry(0x3000, 0x1000, Free)];
            Touchless(s) && Placed(s, Request(0x2000, 0x1000, Free, false), 1, t) && Touching(t, 0)
  {
  }

  lemma GrownCover(s: seq<Entry>, n: nat, c: Request, f: Entry, a: nat)
    requires n < |s| && f.kind == s[n].kind == c.kind
    requires f.Has(a) <==> s[n].Has(a) || c.In(a)
    requires !(s[n].Has(a) && c.In(a))
    ensures !c.In(a) ==> Cover(s[n := f], a) == Cover(s, a)
    ensures c.In(a) ==>
        |Cover(s[n := f], a)| == |Cover(s, a)| + 1 && (Cover(s, a) == [] ==> Cover(s[n := f], a) == [c.kind])
  {
    CoverAt(s, n, a);
    CoverAt(s[n := f], n, a);
    assert s[n := f][..n] == s[..n] && s[n := f][n + 1..] == s[n + 1..];
  }

  lemma NewCover(s: seq<Entry>, n: nat, c: Request, a: nat)
    requires n <= |s|
    ensures var t := s[..n] + [Entry(c.base, c.length, c.kind)] + s[n..];
            && (!c.In(a) ==> Cover(t, a) == Cover(s, a))
            && (c.In(a) ==> |Cover(t, a)| == |Cover(s, a)| + 1 && (Cover(s, a) == [] ==> Cover(t, a) == [c.kind]))
  {
    var f := Entry(c.base, c.length, c.kind);
    CoverConcat(s[..n] + [f], s[n..], a);
    CoverConcat(s[..n], [f], a);
    CoverConcat(s[..n], s[n..], a);
    assert s[..n] + s[n..] == s;
    CoverOne(f, a);
  }

  lemma PlacedAdded(s: seq<Entry>, c: Request, n: nat, t: seq<Entry>)
    requires PlaceAt(s, c, n) && Placed(s, c, n, t)
    ensures Added(s, c, t)
  {
    forall a: nat
      ensures !c.In(a) ==> Cover(t, a) == Cover(s, a)
      ensures c.In(a) ==> |Cover(t, a)| == |Cover(s, a)| + 1 && (Cover(s, a) == [] ==> Cover(t, a) == [c.kind])
    {
      if n > 0 && s[n - 1].kind == c.kind && s[n - 1].End() == c.base {
        GrownCover(s, n - 1, c, t[n - 1], a);
      } else if n < |s| && s[n].kind == c.kind && s[n].base == c.End() {
        GrownCover(s, n, c, t[n], a);
      } else {
        NewCover(s, n, c, a);
      }
    }
  }

  lemma PlacedBlocks(s: seq<Entry>, c: Request, n: nat, t: seq<Entry>, x: nat, y: nat, k: Kind)
    requires PlaceAt(s, c, n) && Placed(s, c, n, t) && Holds(s, x, y, k)
    ensures Holds(t, x, y, k)
  {
    var e :| e in s && e.kind == k && e.base <= x && y <= e.End();
    var j :| 0 <= j < |s| && s[j] == e;
    var j' := if |t| == |s| || j < n then j else j + 1;
    assert t[j'].kind == k && t[j'].base <= x && y <= t[j'].End() && t[j'] in t;
  }

  lemma PlacedHolds(s: seq<Entry>, c: Request, n: nat, t: seq<Entry>)
    requires PlaceAt(s, c, n) && Placed(s, c, n, t)
    ensures Holds(t, c.base, c.End(), c.kind)
  {
    var j := if n > 0 && s[n - 1].kind == c.kind && s[n - 1].End() == c.base then n - 1 else n;
    assert t[j] in t;
  }

  lemma GrownTidy(s: seq<Entry>, n: nat, f: Entry, lo: nat)
    requires Tidy(s, lo) && n < |s| && lo < s[n].End()
    requires f.length > 0 && f.base <= s[n].base && s[n].End() <= f.End() < ADDRESS_LIMIT
    requires forall j :: 0 <= j < n ==> s[j].End() <= f.base && s[j].base <= f.base
    requires forall j :: n < j < |s| ==> f.End() <= s[j].base
    ensures Tidy(s[n := f], lo)
  {
    var t := s[n := f];
    forall j, k | 0 <= j < k < |t|
      ensures t[j].base <= t[k].base && (t[j].End() > lo || t[k].End() > lo ==> t[j].End() <= t[k].base)
    {
      assert s[j].base <= s[k].base && (s[j].End() > lo || s[k].End() > lo ==> s[j].End() <= s[k].base);
    }
  }

  /** Entry `j` of `s` with `f` inserted at `n`. */
  ghost function Inserted(s: seq<Entry>, n: nat, f: Entry, j: nat): Entry
    requires n <= |s| && j <= |s|
  {
    if j < n then s[j] else if j == n then f else s[j - 1]
  }

  lemma InsertedAt(s: seq<Entry>, n: nat, f: Entry)
    requires n <= |s|
    ensures |s[..n] + [f] + s[n..]| == |s| + 1
    ensures forall j :: 0 <= j <= |s| ==> (s[..n] + [f] + s[n..])[j] == Inserted(s, n, f, j)
  {
  }

  lemma NewPair(s: seq<Entry>, n: nat, f: Entry, lo: nat, j: nat, k: nat)
    requires Tidy(s, lo) && n <= |s| && j < k <= |s|
    requires forall i :: 0 <= i < n ==> s[i].End() <= f.base && s[i].base <= f.base
    requires forall i :: n <= i < |s| ==> f.End() <= s[i].base
    ensures var x, y := Inserted(s, n, f, j), Inserted(s, n, f, k);
            x.base <= y.base && (x.End() > lo || y.End() > lo ==> x.End() <= y.base)
  {
    if j != n && k != n {
      var j', k' := if j < n then j else j - 1, if k < n then k else k - 1;
      assert s[j'].base <= s[k'].base;
    }
  }

  lemma NewTidy(s: seq<Entry>, n: nat, f: Entry, lo: nat)
    requires Tidy(s, lo) && n <= |s| && f.length > 0 && f.End() < ADDRESS_LIMIT
    requires forall j :: 0 <= j < n ==> s[j].End() <= f.base && s[j].base <= f.base
    requires forall j :: n <= j < |s| ==> f.End() <= s[j].base
    ensures Tidy(s[..n] + [f] + s[n..], lo)
  {
    InsertedAt(s, n, f);
    forall j, k | 0 <= j < k <= |s|
      ensures var x, y := Inserted(s, n, f, j), Inserted(s, n, f, k);
              x.base <= y.base && (x.End() > lo || y.End() > lo ==> x.End() <= y.base)
    {
      NewPair(s, n, f, lo, j, k);
    }
  }

  lemma TidyNeighbours(s: seq<Entry>, i: nat, lo: nat)
    requires Tidy(s, lo) && i < |s| && lo < s[i].End()
    ensures forall j :: 0 <= j < i ==> s[j].End() <= s[i].base
    ensures forall j :: i < j < |s| ==> s[i].End() <= s[j].base
  {
  }

  lemma TidyUp(s: seq<Entry>, lo: nat, hi: nat)
    requires Tidy(s, lo) && lo <= hi
    ensures Tidy(s, hi)
  {
  }

  /** With everything apart from the request, placing it keeps the map tidy. */
  lemma PlacedTidy(s: seq<Entry>, c: Request, n: nat, t: seq<Entry>, lo: nat)
    requires Tidy(s, lo) && lo <= c.base && (lo < c.base || lo == 0)
    requires c.length > 0 && c.End() < ADDRESS_LIMIT
    requires forall j :: 0 <= j < |s| ==> Apart(s[j], c) && s[j].length > 0 && s[j].End() < ADDRESS_LIMIT
    requires PlaceAt(s, c, n) && Placed(s, c, n, t)
    ensures Tidy(t, lo)
  {
    hide Tidy;
    if n > 0 && s[n - 1].kind == c.kind && s[n - 1].End() == c.base {
      TidyNeighbours(s, n - 1, lo);
      GrownTidy(s, n - 1, t[n - 1], lo);
    } else if n < |s| && s[n].kind == c.kind && s[n].base == c.End() {
      TidyNeighbours(s, n, lo);
      GrownTidy(s, n, t[n], lo);
    } else {
      NewTidy(s, n, Entry(c.base, c.length, c.kind), lo);
    }
  }

  lemma GrownBelow(s: seq<Entry>, n: nat, f: Entry, lo: nat, hi: nat)
    requires Tidy(s, lo) && lo <= hi && n < |s| && f.base == s[n].base
    requires s[n].End() <= f.End() <= hi && f.End() < ADDRESS_LIMIT
    requires forall k :: n < k < |s| ==> f.End() <= s[k].base
    ensures Tidy(s[n := f], hi)
  {
    var t := s[n := f];
    forall j, k | 0 <= j < k < |t|
      ensures t[j].base <= t[k].base && (t[j].End() > hi || t[k].End() > hi ==> t[j].End() <= t[k].base)
    {
      assert s[j].base <= s[k].base && (s[j].End() > lo || s[k].End() > lo ==> s[j].End() <= s[k].base);
    }
  }

  lemma PlacedTidyAbove(s: seq<Entry>, c: Request, n: nat, t: seq<Entry>, lo: nat, hi: nat)
    requires Tidy(s, lo) && lo <= c.base && c.length > 0 && c.End() < hi <= ADDRESS_LIMIT
    requires forall j :: 0 <= j < |s| ==> Apart(s[j], c) && s[j].length > 0 && s[j].End() < ADDRESS_LIMIT
    requires PlaceAt(s, c, n) && Placed(s, c, n, t)
    ensures Tidy(t, hi)
  {
    hide Tidy;
    if n > 0 && s[n - 1].kind == c.kind && s[n - 1].End() == c.base {
      GrownBelow(s, n - 1, t[n - 1], lo, hi);
    } else if n < |s| && s[n].kind == c.kind && s[n].base == c.End() {
      TidyNeighbours(s, n, lo);
      GrownTidy(s, n, t[n], lo);
      TidyUp(t, lo, hi);
    } else {
      NewTidy(s, n, Entry(c.base, c.length, c.kind), lo);
      TidyUp(t, lo, hi);
    }
  }

  /** Even a misplaced piece leaves the map tidy above a clean cut. */
  lemma CutTidyAbove(t: seq<Entry>, hi: nat)
    requires CleanCut(t, hi) && SortedAbove(t, hi)
    ensures Tidy(t, hi)
  {
    forall j, k | 0 <= j < k < |t| && (t[j].End() > hi || t[k].End() > hi)
      ensures t[j].End() <= t[k].base
    {
      assert t[j] in t && t[k] in t;
    }
  }

  ghost predicate SortedAbove(t: seq<Entry>, hi: nat) {
    && (forall j :: 0 <= j < |t| ==> t[j].length > 0 && t[j].End() < ADDRESS_LIMIT)
    && (forall j, k :: 0 <= j < k < |t| ==> t[j].base <= t[k].base && (hi <= t[j].base ==> t[j].End() <= t[k].base))
  }

  lemma GrownSorted(s: seq<Entry>, n: nat, f: Entry, lo: nat, hi: nat)
    requires Tidy(s, lo) && lo <= hi && n < |s| && f.length > 0 && f.End() < ADDRESS_LIMIT
    requires f.base < hi && f.base <= s[n].base
    requires forall j :: 0 <= j < n ==> s[j].base <= f.base
    ensures SortedAbove(s[n := f], hi)
  {
    var t := s[n := f];
    forall j, k | 0 <= j < k < |t|
      ensures t[j].base <= t[k].base && (hi <= t[j].base ==> t[j].End() <= t[k].base)
    {
      assert s[j].base <= s[k].base && (s[j].End() > lo ==> s[j].End() <= s[k].base);
    }
  }

  lemma NewSorted(s: seq<Entry>, n: nat, f: Entry, lo: nat, hi: nat)
    requires Tidy(s, lo) && lo <= hi && n <= |s| && f.length > 0 && f.End() < ADDRESS_LIMIT && f.base < hi
    requires forall j :: 0 <= j < n ==> s[j].base <= f.base
    requires forall j :: n <= j < |s| ==> f.base <= s[j].base
    ensures SortedAbove(s[..n] + [f] + s[n..], hi)
  {
    InsertedAt(s, n, f);
    forall j, k | 0 <= j < k <= |s|
      ensures var x, y := Inserted(s, n, f, j), Inserted(s, n, f, k);
              x.base <= y.base && (hi <= x.base ==> x.End() <= y.base)
    {
      if j != n && k != n {
        var j', k' := if j < n then j else j - 1, if k < n then k else k - 1;
        assert s[j'].base <= s[k'].base;
      }
    }
  }

  lemma PlacedSorted(s: seq<Entry>, c: Request, n: nat, t: seq<Entry>, lo: nat, hi: nat)
    requires Tidy(s, lo) && lo <= hi && c.length > 0 && c.End() < hi <= ADDRESS_LIMIT
    requires PlaceAt(s, c, n) && Placed(s, c, n, t)
    ensures SortedAbove(t, hi)
  {
    if n > 0 && s[n - 1].kind == c.kind && s[n - 1].End() == c.base {
      GrownSorted(s, n - 1, t[n - 1], lo, hi);
    } else if n < |s| && s[n].kind == c.kind && s[n].base == c.End() {
      GrownSorted(s, n, t[n], lo, hi);
    } else {
      NewSorted(s, n, Entry(c.base, c.length, c.kind), lo, hi);
    }
  }

  lemma PlacedAbove(s: seq<Entry>, c: Request, n: nat, t: seq<Entry>, hi: nat)
    requires CleanCut(s, hi) && c.End() < hi && c.length > 0
    requires forall j :: 0 <= j < |s| ==> s[j].length > 0
    requires PlaceAt(s, c, n) && Placed(s, c, n, t)
    ensures SameAbove(s, t, hi)
  {
    forall e | e in t
      ensures e.base < hi ==> e.End() <= hi
      ensures e.base >= hi ==> e in s
    {
      if n < |s| { assert s[n] in s; }
      var j :| 0 <= j < |t| && t[j] == e;
      assert e in s || j == n || j == n - 1;
    }
    forall q: Request | q.base >= hi ensures Fits(t, q) == Fits(s, q) {
      PlacedFits(s, c, n, t, hi, q);
    }
  }

  lemma PlacedFits(s: seq<Entry>, c: Request, n: nat, t: seq<Entry>, hi: nat, q: Request)
    requires CleanCut(s, hi) && c.End() < hi <= q.base && c.length > 0
    requires forall j :: 0 <= j < |s| ==> s[j].length > 0
    requires PlaceAt(s, c, n) && Placed(s, c, n, t)
    ensures Fits(t, q) == Fits(s, q)
  {
    hide Fits;
    forall j | 0 <= j < n ensures s[j].End() <= hi {
      assert s[j] in s;
    }
    if n > 0 && s[n - 1].kind == c.kind && s[n - 1].End() == c.base {
      FitsDrop(s, n, q);
      FitsDrop(t, n, q);
      assert t[n..] == s[n..];
    } else if n < |s| && s[n].kind == c.kind && s[n].base == c.End() {
      assert s[n] in s;
      FitsDrop(s, n + 1, q);
      FitsDrop(t, n + 1, q);
      assert t[n + 1..] == s[n + 1..];
    } else {
      FitsDrop(s, n, q);
      FitsDrop(t, n + 1, q);
      assert t[n + 1..] == s[n..];
    }
  }

  lemma StraddledFits(s: seq<Entry>, r: Request, lo: nat)
    requires Tidy(s, lo) && lo <= r.base && Straddled(s, r)
    ensures Fits(s, r)
  {
    var e :| e in s && e.base < r.base && r.End() < e.End();
    var j :| 0 <= j < |s| && s[j] == e;
    FitsDrop(s, j, r);
    assert s[j..][0] == e;
  }

  lemma ApartUncovered(s: seq<Entry>, c: Request)
    requires forall j :: 0 <= j < |s| ==> Apart(s[j], c)
    ensures forall a :: c.In(a) ==> Cover(s, a) == []
  {
    forall a: nat | c.In(a) ensures Cover(s, a) == [] {
      CoverNone(s, a);
    }
  }

  lemma PlaceCovered(s0: seq<Entry>, r: Request, s: seq<Entry>, c: Request, t: seq<Entry>, lo: nat)
    requires Sound(s0, r, s, c, lo) && Added(s, c, t)
    ensures forall a :: !r.In(a) ==> Cover(t, a) == Cover(s0, a)
    ensures forall a :: Cover(s0, a) != [] || r.In(a) ==> Cover(t, a) != []
  {
  }

  lemma PlaceClean(s0: seq<Entry>, r: Request, s: seq<Entry>, c: Request, t: seq<Entry>, lo: nat)
    requires Sound(s0, r, s, c, lo) && Added(s, c, t)
    requires forall j :: 0 <= j < |s| ==> Apart(s[j], c)
    ensures Carried(s0, r, t)
  {
    ApartUncovered(s, c);
    forall a: nat ensures Cover(t, a) == Want(r, a, Cover(s0, a)) {
    }
  }

  lemma ForcedWhole(s0: seq<Entry>, r: Request, s: seq<Entry>, c: Request, lo: nat)
    requires Sound(s0, r, s, c, lo) && r.force && r.length > 0
    ensures c == r
  {
    assert !Keeps(r, Cover(s0, r.base));
    assert !Keeps(r, Cover(s0, r.End() - 1));
  }

  lemma PlaceTwice(s: seq<Entry>, c: Request, t: seq<Entry>, j: nat)
    requires j < |s| && Inside(s[j], c) && s[j].length > 0 && Added(s, c, t)
    ensures c.In(s[j].base) && |Cover(t, s[j].base)| >= 2
  {
    CoverAt(s, j, s[j].base);
  }

  lemma PlaceBad(s0: seq<Entry>, r: Request, s: seq<Entry>, c: Request, phase: Phase, t: seq<Entry>, lo: nat)
    requires Sound(s0, r, s, c, lo) && Added(s, c, t)
    requires Verdict(s0, r, s, |s|, c, phase) && !phase.Clean?
    ensures !Fits(s0, r) && exists a :: r.In(a) && |Cover(t, a)| >= 2
  {
    assert s[|s|..] == [];
    var j := |s| - 1;
    if phase.Lost? {
      j :| 0 <= j < |s| && Inside(s[j], c);
    }
    PlaceTwice(s, c, t, j);
    assert r.In(s[j].base);
  }

  lemma PlaceTidy(s0: seq<Entry>, r: Request, s: seq<Entry>, c: Request, phase: Phase, n: nat, t: seq<Entry>, lo: nat,
      hi: nat)
    requires Sound(s0, r, s, c, lo) && c.length > 0 && c.End() < hi <= ADDRESS_LIMIT
    requires PlaceAt(s, c, n) && Placed(s, c, n, t)
    requires if phase.Clean? then forall j :: 0 <= j < |s| ==> Apart(s[j], c) else CleanCut(t, hi)
    ensures Tidy(t, hi) && (phase.Clean? && (lo == 0 || lo < r.base) ==> Tidy(t, lo))
  {
    if phase.Clean? {
      PlacedTidyAbove(s, c, n, t, lo, hi);
      if lo == 0 || lo < r.base {
        PlacedTidy(s, c, n, t, lo);
      }
    } else {
      PlacedSorted(s, c, n, t, lo, hi);
      CutTidyAbove(t, hi);
    }
  }

  lemma PlaceRoom(s0: seq<Entry>, r: Request, s: seq<Entry>, c: Request, n: nat, t: seq<Entry>, lo: nat)
    requires Sound(s0, r, s, c, lo) && Budget(s0, r, s, |s|, c) && c.length > 0
    requires PlaceAt(s, c, n) && Placed(s, c, n, t)
    ensures Room(s0, r, t)
  {
    hide Tidy, KeepsBlocks;
    if !Busy(s0, r) {
      UnclaimedWhole(s0, r, s, c, lo);
      forall m: nat | JoinsAt(s, m, r) ensures t == s[m := Entry(s[m].base, s[m].length + r.length, r.kind)] {
        assert m == n - 1;
      }
    }
  }

  lemma UnclaimedWhole(s0: seq<Entry>, r: Request, s: seq<Entry>, c: Request, lo: nat)
    requires Sound(s0, r, s, c, lo) && r.length > 0 && !Busy(s0, r)
    ensures c == r
  {
    assert r.In(r.base) && !Keeps(r, Cover(s0, r.base));
    assert r.In(r.End() - 1) && !Keeps(r, Cover(s0, r.End() - 1));
  }

  lemma PlaceAbove(s0: seq<Entry>, r: Request, s: seq<Entry>, c: Request, n: nat, t: seq<Entry>, lo: nat, hi: nat)
    requires Sound(s0, r, s, c, lo) && Ahead(s0, r, s, |s|, c, lo, hi) && c.length > 0
    requires PlaceAt(s, c, n) && Placed(s, c, n, t)
    ensures !Straddled(s0, r) ==> SameAbove(s0, t, hi)
    ensures Straddled(s0, r) ==> Fits(s0, r)
    ensures !Fits(s0, r) ==> CleanCut(t, hi)
  {
    if !Straddled(s0, r) {
      PlacedAbove(s, c, n, t, hi);
      SameAboveTrans(s0, s, t, hi);
    } else {
      StraddledFits(s0, r, lo);
    }
  }

  /** At the end of the walk, what is left of the request is placed. */
  lemma StepPlace(s0: seq<Entry>, r: Request, s: seq<Entry>, c: Request, phase: Phase, n: nat, t: seq<Entry>, lo: nat,
      hi: nat)
    requires Walk(s0, r, s, |s|, c, phase, lo, hi) && c.length > 0 && hi <= ADDRESS_LIMIT
    requires PlaceAt(s, c, n) && Placed(s, c, n, t)
    ensures Post(s0, r, t, lo, hi)
  {
    hide Tidy, SameAbove, Carried, CleanCut, Untouched, JoinsAt, Cover;
    PlacedAdded(s, c, n, t);
    PlaceCovered(s0, r, s, c, t, lo);
    forall x: nat, y: nat, k | x < y && (y <= r.base || r.End() <= x) && Holds(s0, x, y, k)
      ensures Holds(t, x, y, k)
    {
      PlacedBlocks(s, c, n, t, x, y, k);
    }
    PlaceAbove(s0, r, s, c, n, t, lo, hi);
    if phase.Clean? {
      assert s[|s|..] == [];
      PlaceClean(s0, r, s, c, t, lo);
      PlacedHolds(s, c, n, t);
      if r.force {
        ForcedWhole(s0, r, s, c, lo);
      }
    } else {
      PlaceBad(s0, r, s, c, phase, t, lo);
    }
    PlaceTidy(s0, r, s, c, phase, n, t, lo, hi);
    PlaceRoom(s0, r, s, c, n, t, lo);
  }

  // ---------------------------------------------------------------- on well-formed maps

  /** What a request does to a well-formed map: the result is well-formed exactly when the
      request fits, and then gives every address what it must have. */
  ghost predicate Effect(s: seq<Entry>, r: Request, t: seq<Entry>) {
    && (WellFormed(t) <==> Fits(s, r))
    && (Fits(s, r) ==> Carried(s, r, t))
    && (forall a :: !r.In(a) ==> Cover(t, a) == Cover(s, a))
    && (forall a :: Cover(s, a) != [] || r.In(a) ==> Cover(t, a) != [])
    && KeepsBlocks(s, r, t)
    && (r.force && r.length > 0 && Fits(s, r) ==> Holds(t, r.base, r.End(), r.kind))
    && Room(s, r, t)
  }

  lemma PostEffect(s: seq<Entry>, r: Request, t: seq<Entry>)
    requires Post(s, r, t, 0, ADDRESS_LIMIT)
    ensures Effect(s, r, t)
  {
    hide Fits, Tidy, KeepsBlocks, SameAbove, Room;
    if !Fits(s, r) {
      var a :| r.In(a) && |Cover(t, a)| >= 2;
      NotTidy(t, 0, a);
    }
  }

  /** Without force, every address ends up with the higher of its old and its new kind. */
  lemma UnforcedIsMaximum(s: seq<Entry>, r: Request, t: seq<Entry>, a: nat)
    requires WellFormed(s) && !r.force && Carried(s, r, t)
    ensures !r.In(a) ==> Cover(t, a) == Cover(s, a)
    ensures r.In(a) && Cover(s, a) == [] ==> Cover(t, a) == [r.kind]
    ensures r.In(a) && Cover(s, a) != [] ==>
              |Cover(s, a)| == 1 && Cover(t, a) == [if Rank(r.kind) > Rank(Cover(s, a)[0]) then r.kind else Cover(s,
                  a)[0]]
  {
    assert Cover(t, a) == Want(r, a, Cover(s, a));
    if Cover(s, a) != [] {
      var i := CoverWitness(s, a);
      CoverAlone(s, 0, i, a);
    }
  }

  /** So the kind that comes later in the order of kinds wins, or the requested one by force. */
  lemma RequestPrevails(s: seq<Entry>, r: Request, t: seq<Entry>)
    requires WellFormed(s) && Carried(s, r, t)
    ensures Prevails(s, r.base, r.length, r.kind, r.force, t)
  {
    hide WellFormed;
    forall a: nat | r.In(a) && Cover(s, a) == [] && !r.force ensures Cover(t, a) == [r.kind] {
      UnforcedIsMaximum(s, r, t, a);
    }
    forall a: nat, i: nat, j: nat |
        i < 9 && j < 9 && r.In(a) && Cover(s, a) == [ORDER[i]] && r.kind == ORDER[j] && !r.force
      ensures Cover(t, a) == [ORDER[if i <= j then j else i]]
    {
      UnforcedIsMaximum(s, r, t, a);
      RankIsPlace(i);
      RankIsPlace(j);
    }
  }

  lemma RankIsPlace(i: nat)
    requires i < 9
    ensures |ORDER| == 9 && Rank(ORDER[i]) == i
  {
  }

  /** Unforced requests commute: in either order every address ends up with the same kind. */
  lemma UnforcedCommute(s: seq<Entry>, r: Request, q: Request, t: seq<Entry>, u: seq<Entry>, t': seq<Entry>,
      u': seq<Entry>, a: nat)
    requires WellFormed(s) && WellFormed(t) && WellFormed(t') && !r.force && !q.force
    requires Carried(s, r, t) && Carried(t, q, u)
    requires Carried(s, q, t') && Carried(t', r, u')
    ensures Cover(u, a) == Cover(u', a)
  {
    UnforcedIsMaximum(s, r, t, a);
    UnforcedIsMaximum(t, q, u, a);
    UnforcedIsMaximum(s, q, t', a);
    UnforcedIsMaximum(t', r, u', a);
    if Cover(s, a) != [] && r.In(a) && q.In(a) {
      RankInjective(r.kind, q.kind);
      RankInjective(r.kind, Cover(s, a)[0]);
      RankInjective(q.kind, Cover(s, a)[0]);
    } else {
      RankInjective(r.kind, q.kind);
    }
  }

  lemma RankInjective(k: Kind, l: Kind)
    ensures Rank(k) == Rank(l) ==> k == l
  {
  }
}
