/** The physical memory map as a value: a sequence of typed address ranges, what it
    says about an address, and what one request to set a range is meant to do to it. */
module MemoryMap {

  const ADDRESS_LIMIT: nat := 0x1_0000_0000_0000_0000

  datatype Kind =
    | Free
    | Allocated
    | Used
    | BootloaderReclaimable
    | EfiReclaimable
    | AcpiReclaimable
    | AcpiNvs
    | Reserved
    | Bad

  /** The declaration order of the kinds, which is their priority. */
  function Rank(k: Kind): nat {
    match k
    case Free => 0
    case Allocated => 1
    case Used => 2
    case BootloaderReclaimable => 3
    case EfiReclaimable => 4
    case AcpiReclaimable => 5
    case AcpiNvs => 6
    case Reserved => 7
    case Bad => 8
  }

  /** The kinds from the lowest priority to the highest. */
  const ORDER: seq<Kind> :=
    [Free, Allocated, Used, BootloaderReclaimable, EfiReclaimable, AcpiReclaimable, AcpiNvs, Reserved, Bad]

  datatype Entry = Entry(base: nat, length: nat, kind: Kind) {
    function End(): nat { base + length }

    predicate Has(a: nat) { base <= a < End() }
  }

  /** A request to give `[base, base + length)` the kind `kind`. */
  datatype Request = Request(base: nat, length: nat, kind: Kind, force: bool) {
    function End(): nat { base + length }

    predicate In(a: nat) { base <= a < End() }

    predicate Overrides(k: Kind) { Rank(kind) > Rank(k) || force }

    /** The part of the request from `x` on. */
    function From(x: nat): Request
      requires x <= End()
    {
      this.(base := x, length := End() - x)
    }

    /** The part of the request below `x`. */
    function UpTo(x: nat): Request
      requires base <= x
    {
      this.(length := x - base)
    }
  }

  // ---------------------------------------------------------------- views

  /** The kinds of the entries that contain `a`, in map order. */
  ghost function Cover(s: seq<Entry>, a: nat): seq<Kind> {
    if s == [] then [] else (if s[0].Has(a) then [s[0].kind] else []) + Cover(s[1..], a)
  }

  /** Non-empty entries in ascending order, disjoint as far as addresses from `lo` on are
      concerned.  With `lo == 0` this is a well-formed map. */
  ghost predicate Tidy(s: seq<Entry>, lo: nat) {
    && (forall j :: 0 <= j < |s| ==> s[j].length > 0 && s[j].End() < ADDRESS_LIMIT)
    && (forall j, k :: 0 <= j < k < |s| ==> s[j].base <= s[k].base)
    && (forall j, k :: 0 <= j < k < |s| && (s[j].End() > lo || s[k].End() > lo) ==> s[j].End() <= s[k].base)
  }

  ghost predicate WellFormed(s: seq<Entry>) { Tidy(s, 0) }

  /** Some single entry of kind `k` contains all of `[x, y)`. */
  ghost predicate Holds(s: seq<Entry>, x: nat, y: nat, k: Kind) {
    exists e :: e in s && e.kind == k && e.base <= x && y <= e.End()
  }

  /** Some address of the request is already described. */
  ghost predicate Busy(s: seq<Entry>, r: Request) {
    exists a :: r.In(a) && Cover(s, a) != []
  }

  /** A described address keeps its kind when the request does not override it. */
  ghost predicate Keeps(r: Request, c: seq<Kind>) { |c| == 1 && !r.Overrides(c[0]) }

  /** What address `a` must be covered by once the request is carried out. */
  ghost function Want(r: Request, a: nat, c: seq<Kind>): seq<Kind> {
    if r.In(a) && !Keeps(r, c) then [r.kind] else c
  }

  /** `t` is the map `s` after request `r`. */
  ghost predicate Carried(s: seq<Entry>, r: Request, t: seq<Entry>) {
    forall a :: Cover(t, a) == Want(r, a, Cover(s, a))
  }

  /** Outside the range of a request nothing has changed.  Inside it a forced request has its
      way, and so has any where nothing was described; otherwise the later of the old kind and
      the requested one, in the order of kinds, has won. */
  ghost predicate Prevails(s: seq<Entry>, base: nat, length: nat, kind: Kind, force: bool, t: seq<Entry>) {
    && (forall a: nat :: a < base || base + length <= a ==> Cover(t, a) == Cover(s, a))
    && (forall a: nat :: base <= a < base + length && (force || Cover(s, a) == []) ==> Cover(t, a) == [kind])
    && forall a: nat, i: nat, j: nat ::
        i < 9 && j < 9 && base <= a < base + length && !force && Cover(s, a) == [ORDER[i]] && kind == ORDER[j] ==>
            Cover(t, a) == [ORDER[if i <= j then j else i]]
  }

  // ---------------------------------------------------------------- cover lemmas

  lemma CoverCons(e: Entry, q: seq<Entry>, a: nat)
    ensures Cover([e] + q, a) == (if e.Has(a) then [e.kind] else []) + Cover(q, a)
  {
    assert ([e] + q)[1..] == q;
  }

  lemma {:induction false} CoverConcat(p: seq<Entry>, q: seq<Entry>, a: nat)
    ensures Cover(p + q, a) == Cover(p, a) + Cover(q, a)
  {
    if p == [] {
      assert p + q == q;
    } else {
      assert p + q == [p[0]] + (p[1..] + q);
      CoverCons(p[0], p[1..] + q, a);
      CoverConcat(p[1..], q, a);
    }
  }

  lemma {:induction false} CoverNone(s: seq<Entry>, a: nat)
    requires forall j :: 0 <= j < |s| ==> !s[j].Has(a)
    ensures Cover(s, a) == []
  {
    if s != [] {
      CoverNone(s[1..], a);
    }
  }

  /** An entry containing `a` contributes its kind, and the rest of the map the rest. */
  lemma CoverAt(s: seq<Entry>, i: nat, a: nat)
    requires i < |s|
    ensures Cover(s, a) == Cover(s[..i], a) + (if s[i].Has(a) then [s[i].kind] else []) + Cover(s[i + 1..], a)
  {
    assert s == s[..i] + ([s[i]] + s[i + 1..]);
    CoverConcat(s[..i], [s[i]] + s[i + 1..], a);
    CoverConcat([s[i]], s[i + 1..], a);
    assert [s[i]][1..] == [];
  }

  /** A described address lies in some entry. */
  lemma {:induction false} CoverWitness(s: seq<Entry>, a: nat) returns (i: nat)
    requires Cover(s, a) != []
    ensures i < |s| && s[i].Has(a)
  {
    if s[0].Has(a) {
      i := 0;
    } else {
      i := CoverWitness(s[1..], a);
      i := i + 1;
    }
  }

  /** At an address from `lo` on, one entry covers alone. */
  lemma CoverAlone(s: seq<Entry>, lo: nat, i: nat, a: nat)
    requires Tidy(s, lo) && i < |s| && s[i].Has(a) && lo <= a
    ensures Cover(s, a) == [s[i].kind]
  {
    CoverAt(s, i, a);
    CoverNone(s[..i], a);
    CoverNone(s[i + 1..], a);
  }

  /** Two entries at one address show in its cover. */
  lemma CoverTwice(s: seq<Entry>, i: nat, j: nat, a: nat)
    requires i < j < |s| && s[i].Has(a) && s[j].Has(a)
    ensures |Cover(s, a)| >= 2
  {
    CoverAt(s, i, a);
    CoverAt(s[i + 1..], j - i - 1, a);
    assert s[i + 1..][j - i - 1] == s[j];
  }

  /** A doubly covered address from `lo` on rules out a tidy map. */
  lemma NotTidy(s: seq<Entry>, lo: nat, a: nat)
    requires |Cover(s, a)| >= 2 && lo <= a
    ensures !Tidy(s, lo)
  {
    var i := CoverWitness(s, a);
    if Tidy(s, lo) {
      CoverAlone(s, lo, i, a);
    }
  }
}
