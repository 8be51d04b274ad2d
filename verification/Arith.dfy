/** Integer division facts used by the allocator and the page tables. */
module Arith {

  lemma MulMono(a: nat, b: nat, c: nat)
    requires a <= b
    ensures a * c <= b * c
  {
  }

  lemma {:induction false} MulMod(q: nat, m: nat)
    requires m > 0
    ensures (q * m) % m == 0
  {
    if q > 0 {
      MulMod(q - 1, m);
      assert q * m == (q - 1) * m + m;
      ModAdd((q - 1) * m, m);
    }
  }

  lemma ModAdd(x: nat, m: nat)
    requires m > 0
    ensures (x + m) % m == x % m
  {
    var q, r := x / m, x % m;
    assert x + m == m * (q + 1) + r;
    ModUnique(x + m, m, q + 1, r);
  }

  lemma ModUnique(x: nat, m: nat, q: nat, r: nat)
    requires m > 0 && r < m && x == m * q + r
    ensures x % m == r && x / m == q
  {
    var q', r' := x / m, x % m;
    assert x == m * q' + r';
    assert m * (q - q') == r' - r;
    assert m * (q' - q) == r - r';
    if q > q' {
      MulMono(1, q - q', m);
    } else if q < q' {
      MulMono(1, q' - q, m);
    }
  }

  lemma ModMultiple(x: nat, m: nat, k: nat)
    requires m > 0
    ensures (x + k * m) % m == x % m
  {
    var q, r := x / m, x % m;
    assert x + k * m == m * (q + k) + r;
    ModUnique(x + k * m, m, q + k, r);
  }

  /** Dividing twice is dividing by the product. */
  lemma DivDiv(x: nat, a: nat, b: nat)
    requires a > 0 && b > 0
    ensures a * b > 0 && x / a / b == x / (a * b)
  {
    var q, r := x / a, x % a;
    var q', r' := q / b, q % b;
    assert x == a * (b * q' + r') + r;
    assert a * (b * q' + r') + r == (a * b) * q' + (a * r' + r) by {
      assert a * (b * q') == (a * b) * q';
    }
    assert a * r' + r < a * b by {
      MulMono(r' + 1, b, a);
    }
    assert a * b > 0 by { MulMono(1, b, a); }
    ModUnique(x, a * b, q', a * r' + r);
  }

  /** The digits of `x` below `a * b`, without the lowest ones. */
  lemma ModDiv(x: nat, a: nat, b: nat)
    requires a > 0 && b > 0
    ensures a * b > 0 && x % (a * b) / a == x / a % b
    ensures x % (a * b) % a == x % a
  {
    var q, r := x / a, x % a;
    var q', r' := q / b, q % b;
    assert x == a * (b * q' + r') + r;
    assert a * (b * q' + r') + r == (a * b) * q' + (a * r' + r) by {
      assert a * (b * q') == (a * b) * q';
    }
    assert a * r' + r < a * b by {
      MulMono(r' + 1, b, a);
    }
    assert a * b > 0 by { MulMono(1, b, a); }
    ModUnique(x, a * b, q', a * r' + r);
    ModUnique(a * r' + r, a, r', r);
  }

  lemma ModShift(v: nat, o: nat, w: nat)
    requires w > 0 && o <= w
    ensures (v + o) % w == if v % w + o < w then v % w + o else v % w + o - w
  {
    var q, b := v / w, v % w;
    assert v + o == w * q + (b + o);
    if b + o < w {
      ModUnique(v + o, w, q, b + o);
    } else {
      assert v + o == w * (q + 1) + (b + o - w);
      ModUnique(v + o, w, q + 1, b + o - w);
    }
  }

  lemma ModCongruent(a: nat, b: nat, o: nat, m: nat)
    requires m > 0 && o <= m && a % m == b % m
    ensures (a + o) % m == (b + o) % m
  {
    ModShift(a, o, m);
    ModShift(b, o, m);
  }

  lemma LessFactor(s: nat, m: nat, n: nat)
    requires s * m < s * n
    ensures m < n
  {
    if m >= n {
      MulMono(n, m, s);
    }
  }

  /** Numbers in one block of length `s`, below a limit that is a whole number of blocks. */
  lemma BlockIs(a: nat, b: nat, s: nat, w: nat, blocks: nat)
    requires s > 0 && w == s * blocks && a < w && b < w && b % s == 0
    ensures a / s == b / s <==> b <= a < b + s
    ensures b + s <= w
    ensures b <= a < b + s ==> a % s == a - b
  {
    var m, n := b / s, a / s;
    assert b == s * m && a == s * n + a % s;
    assert s * (m + 1) == b + s;
    LessFactor(s, m, blocks);
    MulMono(m + 1, blocks, s);
    if b <= a < b + s {
      ModUnique(a, s, m, a - b);
    }
  }

  // ---------------------------------------------------------------- bits of a word

  /** Is the bit of weight `b` set? */
  predicate Bit(w: nat, b: nat)
    requires b > 0
  {
    w / b % 2 == 1
  }

  function Flag(b: bool): nat { if b then 1 else 0 }
}
