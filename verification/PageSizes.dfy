/** Which sizes of pages a range is mapped with: around every address the largest page that lies
    inside the range and has its target at the same place in a page. */
module PageSizes {
  import opened Options
  import opened Arith
  import opened PageTree

  /** The block of `size` bytes around the address `d` bytes into `[v, v + length)` lies in that
      range, and its target is a block too. */
  predicate Enclosed(v: nat, p: nat, length: nat, d: nat, size: nat)
    requires size > 0
  {
    (v + d) % size == (p + d) % size && (v + d) % size <= d && d + size <= length + (v + d) % size
  }

  /** The level of the largest page there can be around that address: 1 GiB, 2 MiB or 4 KiB. */
  function Largest(v: nat, p: nat, length: nat, d: nat, giants: bool): nat {
    if giants && Enclosed(v, p, length, d, 0x4000_0000) then 3
    else if Enclosed(v, p, length, d, 0x20_0000) then 2
    else 1
  }

  /** No such block has been entered in its middle. */
  predicate Unsplit(v: nat, p: nat, length: nat, o: nat, size: nat)
    requires size > 0
  {
    Enclosed(v, p, length, o, size) ==> (v + o) % size == 0
  }

  predicate Unentered(v: nat, p: nat, length: nat, o: nat, giants: bool) {
    Unsplit(v, p, length, o, 0x20_0000) && (giants ==> Unsplit(v, p, length, o, 0x4000_0000))
  }

  /** A page of `size` can be mapped next. */
  predicate Opening(v: nat, p: nat, length: nat, o: nat, size: nat)
    requires size > 0
  {
    (v + o) % size == 0 && (p + o) % size == 0 && o + size <= length
  }

  /** The level is that of the largest page that can be mapped next. */
  predicate Chosen(v: nat, p: nat, length: nat, o: nat, level: nat, giants: bool) {
    && 1 <= level <= 3 && Opening(v, p, length, o, Span(level)) && (level == 3 ==> giants)
    && (level < 3 && giants ==> !Opening(v, p, length, o, 0x4000_0000))
    && (level < 2 ==> !Opening(v, p, length, o, 0x20_0000))
  }

  lemma ModSum(a: nat, b: nat, m: nat)
    requires m > 0 && a % m == 0
    ensures (a + b) % m == b % m
  {
    assert a == a / m * m;
    ModMultiple(b, m, a / m);
  }

  /** Addresses of one block agree on the block. */
  lemma SameBlock(v: nat, p: nat, length: nat, d: nat, e: nat, size: nat)
    requires size > 0 && Enclosed(v, p, length, d, size)
    requires d - (v + d) % size <= e < d - (v + d) % size + size
    ensures Enclosed(v, p, length, e, size) && (v + e) % size == e - (d - (v + d) % size)
  {
    var r := (v + d) % size;
    var b: nat := d - r;
    ModUnique(v + d, size, (v + d) / size, r);
    ModUnique(p + d, size, (p + d) / size, r);
    assert v + e == size * ((v + d) / size) + (e - b);
    assert p + e == size * ((p + d) / size) + (e - b);
    ModUnique(v + e, size, (v + d) / size, e - b);
    ModUnique(p + e, size, (p + d) / size, e - b);
  }

  /** Whole multiples of `s` that are less than `s` apart are the same. */
  lemma NoneBetween(a: nat, b: nat, s: nat)
    requires s > 0 && a % s == 0 && b % s == 0 && a < b
    ensures a + s <= b
  {
    var i, j := a / s, b / s;
    assert a == s * i && b == s * j;
    LessFactor(s, i, j);
    MulMono(i + 1, j, s);
  }

  /** A block that cannot be mapped at `o` does not reach into the page that is mapped there,
      and can only begin where that page ends. */
  lemma NotReached(v: nat, p: nat, length: nat, o: nat, s: nat, k: nat, d: nat)
    requires s > 0 && k > 0 && s * k > 0 && (v + o) % s == 0 && o <= d <= o + s
    requires Unsplit(v, p, length, o, s * k) && !Opening(v, p, length, o, s * k)
    requires Enclosed(v, p, length, d, s * k)
    ensures d == o + s && (v + d) % (s * k) == 0
  {
    var size := s * k;
    var b: nat := d - (v + d) % size;
    SameBlock(v, p, length, d, b, size);
    ModDiv(v + b, s, k);
    if b <= o {
      SameBlock(v, p, length, d, o, size);
      assert false;
    } else {
      NoneBetween(v + o, v + b, s);
    }
  }

  /** Where the next page has been mapped, no block has been entered in its middle either. */
  lemma StaysUnsplit(v: nat, p: nat, length: nat, o: nat, s: nat, k: nat)
    requires s > 0 && k > 0 && s * k > 0 && (v + o) % s == 0
    requires Unsplit(v, p, length, o, s * k) && !Opening(v, p, length, o, s * k)
    ensures Unsplit(v, p, length, o + s, s * k)
  {
    if Enclosed(v, p, length, o + s, s * k) {
      NotReached(v, p, length, o, s, k, o + s);
    }
  }

  lemma BehindPage(a: nat, s: nat, size: nat, k: nat)
    requires size > 0 && k > 0 && s == size * k && s > 0 && a % s == 0
    ensures (a + s) % size == 0 && a % size == 0
  {
    var q := a / s;
    assert a == size * (k * q) by { assert a == (size * k) * q; }
    assert a + s == size * (k * q + k);
    ModUnique(a, size, k * q, 0);
    ModUnique(a + s, size, k * q + k, 0);
  }

  /** The page that is chosen has the size of the largest one around each of its addresses. */
  lemma ChosenIsLargest(v: nat, p: nat, length: nat, o: nat, level: nat, giants: bool, d: nat)
    requires Chosen(v, p, length, o, level, giants) && Unentered(v, p, length, o, giants)
    requires o <= d < o + Span(level)
    ensures Largest(v, p, length, d, giants) == level
  {
    hide Unsplit, Opening, Enclosed;
    SpanValues();
    InBlock(v, p, length, o, Span(level), d);
    assert (v + o) % Span(level) == 0 by { Opened(v, p, length, o, Span(level)); }
    if level == 1 && Enclosed(v, p, length, d, 0x20_0000) {
      NotReached(v, p, length, o, 4096, 512, d);
    }
    if level == 1 && giants && Enclosed(v, p, length, d, 0x4000_0000) {
      NotReached(v, p, length, o, 4096, 0x4_0000, d);
    }
    if level == 2 && giants && Enclosed(v, p, length, d, 0x4000_0000) {
      NotReached(v, p, length, o, 0x20_0000, 512, d);
    }
  }

  lemma Opened(v: nat, p: nat, length: nat, o: nat, size: nat)
    requires size > 0 && Opening(v, p, length, o, size)
    ensures (v + o) % size == 0
  {
  }

  lemma InBlock(v: nat, p: nat, length: nat, o: nat, size: nat, d: nat)
    requires size > 0 && Opening(v, p, length, o, size) && o <= d < o + size
    ensures Enclosed(v, p, length, d, size)
  {
    SameBlock(v, p, length, o, d, size);
  }

  lemma ChosenUnentered(v: nat, p: nat, length: nat, o: nat, level: nat, giants: bool)
    requires Chosen(v, p, length, o, level, giants) && Unentered(v, p, length, o, giants)
    ensures Unentered(v, p, length, o + Span(level), giants)
  {
    hide Opening, Enclosed;
    SpanValues();
    Opened(v, p, length, o, Span(level));
    if level == 1 {
      StaysUnsplit(v, p, length, o, 4096, 512);
    } else {
      BehindPage(v + o, Span(level), 0x20_0000, if level == 2 then 1 else 512);
    }
    if level == 1 && giants {
      StaysUnsplit(v, p, length, o, 4096, 0x4_0000);
    } else if level == 2 && giants {
      StaysUnsplit(v, p, length, o, 0x20_0000, 512);
    } else if level == 3 {
      BehindPage(v + o, Span(level), 0x4000_0000, 1);
    }
  }

  // ---------------------------------------------------------------- along a range

  /** So far every address has the largest page, and no block has been entered in its middle. */
  ghost predicate Sized(t: Tree, v: nat, p: nat, o: nat, length: nat, giants: bool) {
    && Unentered(v, p, length, o, giants)
    && forall x: nat :: var d := Distance(x, v, Span(t.depth + 1));
         d < o ==> Find(t, x).Some? && Find(t, x).value.level == Largest(v, p, length, d, giants)
  }

  lemma SizedStarts(t: Tree, v: nat, p: nat, length: nat, giants: bool)
    ensures Sized(t, v, p, 0, length, giants)
  {
  }

  /** Mapping the page that is chosen goes on with largest pages. */
  lemma SizedStep(t: Tree, t': Tree, v: nat, p: nat, o: nat, length: nat, giants: bool, u: nat, q: nat, level: nat,
      g: Grant)
    requires Sized(t, v, p, o, length, giants) && Chosen(v, p, length, o, level, giants)
    requires level <= t.depth && length <= Span(t.depth + 1) && u % Span(level) == 0
    requires u % Span(t.depth + 1) == (v + o) % Span(t.depth + 1) && MapsPage(t, t', u, q, level, g)
    ensures Sized(t', v, p, o + Span(level), length, giants)
  {
    hide Unentered, Largest, Agree, Distance, Span;
    var w := Span(t.depth + 1);
    ChosenUnentered(v, p, length, o, level, giants);
    Room(v, p, length, o, level, giants);
    forall x: nat | Distance(x, v, w) < o + Span(level)
      ensures Find(t', x).Some? && Find(t', x).value.level == Largest(v, p, length, Distance(x, v, w), giants)
    {
      PageIsRange(x, u, level, t.depth);
      DistanceShift(x, v, u, o, w);
      if Agree(x, u, level, t.depth) {
        Around(x, v, u, o, w, Span(level));
        ChosenIsLargest(v, p, length, o, level, giants, Distance(x, v, w));
      }
    }
  }

  lemma Room(v: nat, p: nat, length: nat, o: nat, level: nat, giants: bool)
    requires Chosen(v, p, length, o, level, giants)
    ensures o + Span(level) <= length
  {
  }

  lemma Around(x: nat, v: nat, u: nat, o: nat, w: nat, size: nat)
    requires w > 0 && o + size <= w && u % w == (v + o) % w && Distance(x, u, w) < size
    ensures o <= Distance(x, v, w) < o + size
  {
    DistanceShift(x, v, u, o, w);
    DistanceIs(x, v, w);
  }

  // ---------------------------------------------------------------- cursors

  /** A cursor that is seen modulo whole pages has the place in a page that it stands for. */
  lemma SamePlace(a: nat, b: nat, m: nat, s: nat, k: nat)
    requires s > 0 && m > 0 && m == s * k && k > 0 && a % m == b % m
    ensures a % s == b % s
  {
    ModDiv(a, s, k);
    ModDiv(b, s, k);
  }

  /** The three sizes divide the widths of addresses of either kind. */
  lemma SameOpening(v: nat, u: nat, p: nat, q: nat, length: nat, o: nat, w: nat, k: nat, m: nat, n: nat)
    requires w == 0x4000_0000 * k && m == 0x4000_0000 * n && k > 0 && n > 0 && o <= length
    requires u % w == (v + o) % w && q % m == (p + o) % m
    ensures Opening(v, p, length, o, 0x1000) <==> u % 0x1000 == 0 && q % 0x1000 == 0 && length - o >= 0x1000
    ensures Opening(v, p, length, o, 0x20_0000) <==> u % 0x20_0000 == 0 && q % 0x20_0000 == 0 && length - o >= 0x20_0000
    ensures Opening(v, p, length, o, 0x4000_0000) <==>
        u % 0x4000_0000 == 0 && q % 0x4000_0000 == 0 && length - o >= 0x4000_0000
  {
    SamePlace(u, v + o, w, 0x4000_0000, k);
    SamePlace(q, p + o, m, 0x4000_0000, n);
    SamePlace(u, v + o, 0x4000_0000, 0x20_0000, 512);
    SamePlace(q, p + o, 0x4000_0000, 0x20_0000, 512);
    SamePlace(u, v + o, 0x4000_0000, 0x1000, 0x4_0000);
    SamePlace(q, p + o, 0x4000_0000, 0x1000, 0x4_0000);
  }
}
