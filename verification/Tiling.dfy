/** A range mapped page by page: whatever mix of page sizes is chosen, the translation is the
    same, so large pages are indistinguishable from mapping every 4 KiB page by itself. */
module Tiling {
  import opened PageTree

  /** Bytes mapped by pages of the given levels. */
  function Covered(levels: seq<nat>): nat {
    if levels == [] then 0 else Covered(levels[..|levels| - 1]) + Span(levels[|levels| - 1])
  }

  /** `trees[i + 1]` is `trees[i]` with the next page of `[v, ...)` mapped at `levels[i]`, to
      the next page of `[p, ...)`; both pages are aligned to their size. */
  ghost predicate Tiles(trees: seq<Tree>, levels: seq<nat>, v: nat, p: nat, m: nat, g: Grant)
    requires m > 0
  {
    && |trees| == |levels| + 1
    && forall i :: 0 <= i < |levels| ==> Tile(trees[i], trees[i + 1], levels[i], v + Covered(levels[..i]),
        p + Covered(levels[..i]), m, g)
  }

  ghost predicate Tile(t: Tree, t': Tree, level: nat, u: nat, q: nat, m: nat, g: Grant)
    requires m > 0
  {
    && 1 <= level <= t.depth && m % Span(level) == 0
    && u % Span(level) == 0 && q % Span(level) == 0
    && MapsPage(t, t', u, q % m, level, g)
  }

  /** One more page extends the mapped range by that page. */
  lemma TileExtends(t0: Tree, t: Tree, t': Tree, level: nat, v: nat, p: nat, o: nat, m: nat, g: Grant)
    requires m > 0 && MapsRange(t0, t, v, p, o, m, g) && Tile(t, t', level, v + o, p + o, m, g)
    requires o + Span(level) <= Span(t0.depth + 1)
    ensures MapsRange(t0, t', v, p, o + Span(level), m, g)
  {
    hide MapsPage, Mapped, Span;
    var k := m / Span(level);
    assert m == Span(level) * k;
    RangeStep(t0, t, t', v, p, o, v + o, p + o, level, m, k, g);
  }

  lemma TilesPrefix(trees: seq<Tree>, levels: seq<nat>, n: nat, v: nat, p: nat, m: nat, g: Grant)
    requires m > 0 && Tiles(trees, levels, v, p, m, g) && n < |levels|
    ensures Tiles(trees[..n + 1], levels[..n], v, p, m, g)
    ensures Tile(trees[n], trees[n + 1], levels[n], v + Covered(levels[..n]), p + Covered(levels[..n]), m, g)
  {
    hide Tile;
    forall i | 0 <= i < n
      ensures Tile(trees[..n + 1][i], trees[..n + 1][i + 1], levels[..n][i], v + Covered(levels[..n][..i]),
          p + Covered(levels[..n][..i]), m, g)
    {
      assert levels[..n][..i] == levels[..i];
    }
  }

  /** Pages that tile a range map exactly that range. */
  lemma {:induction false} TilesMapRange(trees: seq<Tree>, levels: seq<nat>, v: nat, p: nat, m: nat, g: Grant)
    requires m > 0 && Tiles(trees, levels, v, p, m, g) && Covered(levels) <= Span(trees[0].depth + 1)
    ensures MapsRange(trees[0], trees[|levels|], v, p, Covered(levels), m, g)
  {
    hide Tile, Mapped, Span, MapsRange;
    if levels == [] {
      NothingMapped(trees[0], v, p, m, g);
    } else {
      var n := |levels| - 1;
      TilesPrefix(trees, levels, n, v, p, m, g);
      TilesMapRange(trees[..n + 1], levels[..n], v, p, m, g);
      TileExtends(trees[0], trees[n], trees[n + 1], levels[n], v, p, Covered(levels[..n]), m, g);
    }
  }

  /** Two mappings of the same range translate every address alike. */
  lemma RangesAlike(t0: Tree, t: Tree, t': Tree, v: nat, p: nat, length: nat, m: nat, g: Grant)
    requires m > 0 && MapsRange(t0, t, v, p, length, m, g) && MapsRange(t0, t', v, p, length, m, g)
    ensures forall x: nat :: Translate(t, x) == Translate(t', x)
  {
    forall x: nat ensures Translate(t, x) == Translate(t', x) {
      assert Translate(t, x) == Mapped(t0, v, p, length, m, g, x);
    }
  }

  /** A range mapped with large pages translates as if each of its 4 KiB pages had been
      mapped by itself. */
  lemma LargeIsPageByPage(t0: Tree, t: Tree, small: seq<Tree>, ones: seq<nat>, v: nat, p: nat, m: nat, g: Grant)
    requires m > 0 && MapsRange(t0, t, v, p, 4096 * |ones|, m, g) && 4096 * |ones| <= Span(t0.depth + 1)
    requires Tiles(small, ones, v, p, m, g) && small[0] == t0 && (forall i :: 0 <= i < |ones| ==> ones[i] == 1)
    ensures forall x: nat :: Translate(t, x) == Translate(small[|ones|], x)
  {
    SmallPages(ones);
    TilesMapRange(small, ones, v, p, m, g);
    RangesAlike(t0, t, small[|ones|], v, p, 4096 * |ones|, m, g);
  }

  lemma {:induction false} SmallPages(ones: seq<nat>)
    requires forall i :: 0 <= i < |ones| ==> ones[i] == 1
    ensures Covered(ones) == 4096 * |ones|
  {
    if ones != [] {
      SmallPages(ones[..|ones| - 1]);
    }
  }
}
