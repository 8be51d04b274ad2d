/** Formatted output of integers and strings, as configured without floating point, write-back
    and the alternate form: what is printed for every flag, width and precision, that it reads
    back as the number, and what ends up in the caller's buffer. */
module Printf {
  import Arith
  import opened Digits

  datatype Conversion = SignedInt | Binary | Octal | HexInt | UnsignedInt | PointerValue

  /** A conversion as parsed.  `prec` can be set although `hasPrec` is not: that is how a
      negative precision is parsed. */
  datatype Spec = Spec(
    conv: Conversion, upper: bool,
    leftJustified: bool, leadingZeroPad: bool, prepend: string,
    hasWidth: bool, width: nat, hasPrec: bool, prec: nat)

  const BUFFER_SIZE: nat := 23
  const UINT_LIMIT: nat := 0x1_0000_0000_0000_0000

  function Base(c: Conversion): (b: nat)
    ensures 2 <= b <= 16
  {
    match c
    case SignedInt => 10
    case Binary => 2
    case Octal => 8
    case HexInt => 16
    case UnsignedInt => 10
    case PointerValue => 16
  }

  /** Values the conversion can be given. */
  predicate InRange(c: Conversion, v: int) {
    if c == SignedInt then -(UINT_LIMIT / 2) <= v < UINT_LIMIT / 2 else 0 <= v < UINT_LIMIT
  }

  function Magnitude(v: int): nat { if v < 0 then -v else v }

  function Max(a: nat, b: nat): nat { if a >= b then a else b }

  // ---------------------------------------------------------------- what is to be printed

  /** The precision in effect: pointers have one of their own. */
  function Precision(f: Spec): nat { if f.conv == PointerValue && !f.hasPrec then 16 else f.prec }

  /** Zero with precision zero has no digits. */
  function DigitsOf(f: Spec, v: int): string {
    if v == 0 && f.hasPrec && f.prec == 0 then [] else Numeral(Magnitude(v), Base(f.conv), f.upper)
  }

  function Number(f: Spec, v: int): string {
    var d := DigitsOf(f, v);
    Repeat('0', Max(Precision(f), |d|) - |d|) + d
  }

  function Sign(f: Spec, v: int): string {
    if f.conv == SignedInt then (if v < 0 then "-" else f.prepend) else []
  }

  /** Does the field get its width from zeros?  Not on the right, not beside a precision of a
      standard integer conversion, and not when there is nothing to print. */
  predicate ZeroFilled(f: Spec, v: int) {
    && f.leadingZeroPad && !f.leftJustified
    && !(f.hasPrec && f.conv in {SignedInt, Octal, HexInt, UnsignedInt})
    && !(f.hasPrec && f.prec == 0 && v == 0)
  }

  function Fill(f: Spec, length: nat): nat { if f.hasWidth then Max(f.width, length) - length else 0 }

  /** The whole field for an integer. */
  function Field(f: Spec, v: int): string {
    var n, s := Number(f, v), Sign(f, v);
    var fill := Fill(f, |s| + |n|);
    if f.leftJustified then s + n + Repeat(' ', fill)
    else if ZeroFilled(f, v) then s + Repeat('0', fill) + n
    else Repeat(' ', fill) + s + n
  }

  predicate WellFormed(f: Spec) { f.prepend in {"", "+", " "} }

  /** A field is as long as its content, and no shorter than its width. */
  lemma FieldLength(f: Spec, v: int)
    ensures |Field(f, v)| == Max(if f.hasWidth then f.width else 0, |Sign(f, v)| +
        Max(if f.conv == PointerValue && !f.hasPrec then 16 else f.prec, |DigitsOf(f, v)|))
  {
  }

  /** There are no digits exactly for zero with a precision of zero; otherwise they stand for the
      number, in the case asked for, and start with a zero for zero alone. */
  lemma DigitsAre(f: Spec, v: int)
    requires InRange(f.conv, v)
    ensures DigitsOf(f, v) == [] <==> v == 0 && f.hasPrec && f.prec == 0
    ensures v == 0 && DigitsOf(f, v) != [] ==> DigitsOf(f, v) == "0"
    ensures v != 0 ==> DigitsOf(f, v)[0] != '0' && ReadDigits(DigitsOf(f, v), Base(f.conv)) == Magnitude(v)
    ensures forall c :: c in DigitsOf(f, v) ==> c in if f.upper then "0123456789ABCDEF" else "0123456789abcdef"
  {
    hide InRange;
    ReadBack(Magnitude(v), Base(f.conv), f.upper);
    NumeralLetters(Magnitude(v), Base(f.conv), f.upper);
    DigitTable(0);
    if v != 0 {
      NoLeadingZero(Magnitude(v), Base(f.conv), f.upper);
    }
  }

  /** Which sign is printed: a minus for negative numbers, and the one asked for before all
      others of the signed conversion. */
  lemma SignPrinted(f: Spec, v: int)
    requires WellFormed(f) && InRange(f.conv, v)
    ensures '-' in Field(f, v) <==> v < 0
    ensures '+' in Field(f, v) <==> f.conv == SignedInt && v >= 0 && f.prepend == "+"
    ensures !f.hasWidth ==> (' ' in Field(f, v) <==> f.conv == SignedInt && v >= 0 && f.prepend == " ")
    ensures !f.hasWidth && ' ' in Field(f, v) ==> Field(f, v)[0] == ' '
  {
    hide Number, IsDigit;
    NumberCharacters(f, v);
    CharKinds();
    var n, s, fill := Number(f, v), Sign(f, v), Fill(f, |Sign(f, v)| + |Number(f, v)|);
    forall c: char | c in {'-', '+', ' '}
      ensures c in Field(f, v) <==> c in s || (fill > 0 && c == ' ' && !ZeroFilled(f, v))
    {
      assert c !in n && c !in Repeat('0', fill) && (c in Repeat(' ', fill) <==> c == ' ' && fill > 0) by {
        assert fill > 0 ==> Repeat(' ', fill)[0] == ' ';
      }
    }
  }

  /** What fills a field: spaces behind it, zeros behind its sign, or spaces before it. */
  lemma FillAt(f: Spec, v: int)
    ensures var s, fill := |Sign(f, v)|, |Field(f, v)| - |Sign(f, v)| - |Number(f, v)|;
            && 0 <= fill <= |Field(f, v)|
            && (f.leftJustified ==> forall i :: |Field(f, v)| - fill <= i < |Field(f, v)| ==> Field(f, v)[i] == ' ')
            && (!f.leftJustified && f.leadingZeroPad && !f.hasPrec ==>
                  Field(f, v)[..s] == Sign(f, v) && forall i :: s <= i < s + fill ==> Field(f, v)[i] == '0')
            && (!f.leftJustified && !f.leadingZeroPad ==> forall i :: 0 <= i < fill ==> Field(f, v)[i] == ' ')
  {
    hide DigitsOf, Number, Sign;
  }

  /** What is printed reads back as the number, for every combination of flags. */
  lemma FieldReadsBack(f: Spec, v: int)
    requires WellFormed(f) && InRange(f.conv, v)
    ensures Scan(Field(f, v), Base(f.conv)) == v
  {
    hide DigitsOf, Sign, ZeroFilled, Precision, InRange, Scan, Parts, WellFormed, Base;
    var d, s := DigitsOf(f, v), Sign(f, v);
    var zeros, fill := Max(Precision(f), |d|) - |d|, Fill(f, |s| + |Number(f, v)|);
    if f.leftJustified {
      PartsReadBack(f, v, 0, zeros, fill);
      PartsAre(f, v, 0, zeros, fill);
    } else if ZeroFilled(f, v) {
      PartsReadBack(f, v, 0, fill + zeros, 0);
      ZeroFilledParts(f, v, zeros, fill);
    } else {
      PartsReadBack(f, v, fill, zeros, 0);
      PartsAre(f, v, fill, zeros, 0);
    }
  }

  lemma ZeroFilledParts(f: Spec, v: int, zeros: nat, fill: nat)
    requires !f.leftJustified && ZeroFilled(f, v)
    requires zeros == Max(Precision(f), |DigitsOf(f, v)|) - |DigitsOf(f, v)|
    requires fill == Fill(f, |Sign(f, v)| + |Number(f, v)|)
    ensures Field(f, v) == Parts(f, v, 0, fill + zeros, 0)
  {
    hide DigitsOf, Sign, ZeroFilled, Precision, Parts, Fill;
    PartsAre(f, v, 0, fill + zeros, 0);
    assert Repeat('0', fill + zeros) == Repeat('0', fill) + Repeat('0', zeros);
    assert Field(f, v) == Sign(f, v) + Repeat('0', fill) + (Repeat('0', zeros) + DigitsOf(f, v));
  }

  /** Spaces, sign, zeros, digits and spaces. */
  function Parts(f: Spec, v: int, before: nat, zeros: nat, after: nat): string {
    Repeat(' ', before) + (Sign(f, v) + ((Repeat('0', zeros) + DigitsOf(f, v)) + Repeat(' ', after)))
  }

  lemma PartsAre(f: Spec, v: int, before: nat, zeros: nat, after: nat)
    ensures Parts(f, v, before, zeros, after) ==
        Repeat(' ', before) + Sign(f, v) + Repeat('0', zeros) + DigitsOf(f, v) + Repeat(' ', after)
    ensures before == 0 ==>
        Parts(f, v, before, zeros, after) == Sign(f, v) + (Repeat('0', zeros) + DigitsOf(f, v)) + Repeat(' ', after)
    ensures after == 0 ==>
        Parts(f, v, before, zeros, after) == Repeat(' ', before) + Sign(f, v) + (Repeat('0', zeros) + DigitsOf(f, v))
    ensures before == 0 && after == 0 ==>
        Parts(f, v, before, zeros, after) == Sign(f, v) + Repeat('0', zeros) + DigitsOf(f, v)
  {
    hide DigitsOf, Sign;
  }

  lemma PartsReadBack(f: Spec, v: int, before: nat, zeros: nat, after: nat)
    requires WellFormed(f) && InRange(f.conv, v)
    ensures Scan(Parts(f, v, before, zeros, after), Base(f.conv)) == v
  {
    hide SkipSpaces, Leading, ReadDigits, Numeral, IsDigit, DigitsOf;
    var number := Repeat('0', zeros) + DigitsOf(f, v);
    var rest := number + Repeat(' ', after);
    NumberRead(f, v, zeros, after);
    SkipsSpaces(before, Sign(f, v) + rest);
    SignThenNumber(Sign(f, v), number, after);
    CharKinds();
  }

  lemma NumberRead(f: Spec, v: int, zeros: nat, after: nat)
    requires InRange(f.conv, v)
    ensures var number := Repeat('0', zeros) + DigitsOf(f, v);
            && (forall i :: 0 <= i < |number| ==> IsDigit(number[i]))
            && ReadDigits(Leading(number + Repeat(' ', after)), Base(f.conv)) == Magnitude(v)
  {
    hide IsDigit, Numeral, ReadDigits;
    var d, base := DigitsOf(f, v), Base(f.conv);
    var number := Repeat('0', zeros) + d;
    NumeralDigits(Magnitude(v), base, f.upper);
    assert IsDigit('0') && !IsDigit(' ') by { CharKinds(); }
    LeadingIs(number, Repeat(' ', after));
    LeadingZeros(zeros, d, base);
    ReadBack(Magnitude(v), base, f.upper);
    assert ReadDigits([], base) == 0 by { NothingRead(base); }
  }

  lemma CharKinds()
    ensures IsDigit('0') && !IsDigit(' ') && !IsDigit('-') && !IsDigit('+')
  {
  }

  lemma NothingRead(base: nat)
    ensures ReadDigits([], base) == 0
  {
  }

  /** After the spaces comes the sign, or the number. */
  lemma SignThenNumber(s: string, number: string, after: nat)
    requires s in {"", "-", "+", " "} && forall i :: 0 <= i < |number| ==> IsDigit(number[i])
    ensures var rest, t := number + Repeat(' ', after), SkipSpaces(s + (number + Repeat(' ', after)));
            if s == "-" || s == "+" then t == s + rest && t[1..] == rest
            else Leading(t) == Leading(rest) && (t == [] || IsDigit(t[0]))
  {
    var rest := number + Repeat(' ', after);
    if s == "-" || s == "+" {
      assert (s + rest)[1..] == rest;
    } else {
      if s == " " {
        assert (s + rest)[1..] == rest;
      } else {
        assert s + rest == rest;
      }
      if number == [] {
        assert rest == Repeat(' ', after) + [];
        SkipsSpaces(after, []);
        LeadingIs([], Repeat(' ', after));
        assert [] + Repeat(' ', after) == rest;
      } else {
        assert rest[0] == number[0];
      }
    }
  }

  // ---------------------------------------------------------------- where flags and precision show

  lemma NumberCharacters(f: Spec, v: int)
    requires InRange(f.conv, v)
    ensures forall i :: 0 <= i < |Number(f, v)| ==> IsDigit(Number(f, v)[i])
  {
    hide Numeral, IsDigit;
    NumeralDigits(Magnitude(v), Base(f.conv), f.upper);
    CharKinds();
  }

  /** A precision that is longer than the digits, although the conversion has none. */
  predicate Surplus(f: Spec, v: int) { !f.hasPrec && f.conv != PointerValue && f.prec > |DigitsOf(f, v)| }

  /** The zeros of the surplus are those the width would have brought anyway. */
  predicate Absorbed(f: Spec, v: int) {
    ZeroFilled(f, v) && f.hasWidth && f.width >= |Sign(f, v)| + f.prec
  }

  /** A field that zeros fill: they and those of the precision are one run of zeros. */
  lemma ZerosOnly(f: Spec, v: int)
    requires ZeroFilled(f, v) && f.hasWidth && f.width >= |Sign(f, v)| + Max(Precision(f), |DigitsOf(f, v)|)
    ensures var d, s := DigitsOf(f, v), Sign(f, v);
            Field(f, v) == s + (Repeat('0', f.width - |s| - |d|) + d)
  {
    hide DigitsOf, Sign, Precision;
    var d, s := DigitsOf(f, v), Sign(f, v);
    var zeros := Max(Precision(f), |d|) - |d|;
    var fill := f.width - |s| - |d| - zeros;
    assert Repeat('0', fill + zeros) == Repeat('0', fill) + Repeat('0', zeros);
    assert Field(f, v) == s + Repeat('0', fill) + (Repeat('0', zeros) + d);
  }

  /** A surplus that is absorbed does not show. */
  lemma AbsorbedSame(f: Spec, v: int)
    requires Surplus(f, v) && Absorbed(f, v)
    ensures Field(f, v) == Field(f.(prec := 0), v)
  {
    hide DigitsOf, Sign, Field, ZeroFilled;
    PrecisionApart(f, v);
    ZerosOnly(f, v);
    ZerosOnly(f.(prec := 0), v);
  }

  /** A precision the conversion does not have decides neither the digits nor the sign. */
  lemma PrecisionApart(f: Spec, v: int)
    requires !f.hasPrec
    ensures DigitsOf(f.(prec := 0), v) == DigitsOf(f, v) && Sign(f.(prec := 0), v) == Sign(f, v)
    ensures ZeroFilled(f.(prec := 0), v) == ZeroFilled(f, v)
  {
  }

  lemma SurplusShows(f: Spec, v: int)
    requires WellFormed(f) && InRange(f.conv, v) && Surplus(f, v) && !Absorbed(f, v)
    ensures Field(f, v) != Field(f.(prec := 0), v)
  {
    hide DigitsOf, IsDigit, Number, Field;
    var g := f.(prec := 0);
    var s := Sign(f, v);
    PrecisionApart(f, v);
    NumberCharacters(f, v);
    NumberLength(f, v);
    NumberLength(g, v);
    FieldLength(f, v);
    FieldLength(g, v);
    CharKinds();
    if f.hasWidth && f.width >= |s| + f.prec {
      FieldAt(f, v);
      FieldAt(g, v);
      if f.leftJustified {
        var i := |DigitsOf(f, v)|;
        assert Field(f, v)[|s| + i] == Number(f, v)[i];
        assert IsDigit(Field(f, v)[|s| + i]) && !IsDigit(Field(g, v)[|s| + i]);
      } else {
        var i := f.width - f.prec;
        assert IsDigit(Field(f, v)[i]) && !IsDigit(Field(g, v)[i]);
      }
    }
  }

  lemma NumberLength(f: Spec, v: int)
    ensures |Number(f, v)| == Max(Precision(f), |DigitsOf(f, v)|)
  {
    hide DigitsOf;
  }

  /** Where the parts of a field begin. */
  lemma FieldAt(f: Spec, v: int)
    ensures var n, s := Number(f, v), Sign(f, v);
            var fill := Fill(f, |s| + |n|);
            && |Field(f, v)| == fill + |s| + |n|
            && (f.leftJustified ==>
                  && (forall i :: 0 <= i < |n| ==> Field(f, v)[|s| + i] == n[i])
                  && (forall i :: |s| + |n| <= i < |Field(f, v)| ==> Field(f, v)[i] == ' '))
            && (!f.leftJustified && !ZeroFilled(f, v) ==>
                  && (forall i :: 0 <= i < fill ==> Field(f, v)[i] == ' ')
                  && (forall i :: fill <= i < fill + |s| ==> Field(f, v)[i] == s[i - fill])
                  && (forall i :: fill + |s| <= i < |Field(f, v)| ==> Field(f, v)[i] == n[i - fill - |s|]))
  {
    hide DigitsOf, Number, Sign;
  }

  /** The precision of a conversion that has none, as a negative one is parsed, is ignored
      exactly when it is no longer than the digits or absorbed by zeros of the width. */
  lemma UnwantedPrecision(f: Spec, v: int)
    requires WellFormed(f) && InRange(f.conv, v) && !f.hasPrec && f.conv != PointerValue
    ensures Field(f, v) == Field(f.(prec := 0), v) <==> f.prec <= |DigitsOf(f, v)| || Absorbed(f, v)
  {
    hide Field, DigitsOf, Absorbed;
    if f.prec <= |DigitsOf(f, v)| {
      ShortPrecision(f, v);
    } else if Absorbed(f, v) {
      AbsorbedSame(f, v);
    } else {
      SurplusShows(f, v);
    }
  }

  lemma ShortPrecision(f: Spec, v: int)
    requires !f.hasPrec && f.conv != PointerValue && f.prec <= |DigitsOf(f, v)|
    ensures Field(f, v) == Field(f.(prec := 0), v)
  {
    hide DigitsOf;
    PrecisionApart(f, v);
  }

  /** Beside a precision the zero flag is ignored, except for binary numbers and pointers with
      something to print, whose field still is filled with zeros. */
  lemma ZeroFlagBesidePrecision(f: Spec, v: int)
    requires f.hasPrec && f.leadingZeroPad && !f.leftJustified
    ensures Field(f, v) == Field(f.(leadingZeroPad := false), v) <==>
            || f.conv in {SignedInt, Octal, HexInt, UnsignedInt} || (f.prec == 0 && v == 0)
            || Fill(f, |Sign(f, v)| + |Number(f, v)|) == 0
  {
    hide DigitsOf;
    var g := f.(leadingZeroPad := false);
    var n, s, fill := Number(f, v), Sign(f, v), Fill(f, |Sign(f, v)| + |Number(f, v)|);
    assert DigitsOf(g, v) == DigitsOf(f, v) by { FlagApart(f, v); }
    if ZeroFilled(f, v) {
      assert s == [];
      if fill == 0 {
        assert s + Repeat('0', 0) + n == Repeat(' ', 0) + s + n;
      } else {
        assert Field(f, v)[0] == '0' && Field(g, v)[0] == ' ';
      }
    }
  }

  lemma FlagApart(f: Spec, v: int)
    ensures DigitsOf(f.(leadingZeroPad := false), v) == DigitsOf(f, v)
  {
  }

  // ---------------------------------------------------------------- where it goes

  /** Output that is counted in full and stored as far as there is room. */
  class Sink {
    const dst: array<char>
    var cur: nat
    var count: nat
    ghost var out: string

    constructor (dst: array<char>)
      ensures Valid() && this.dst == dst && out == []
    {
      this.dst := dst;
      cur, count, out := 0, 0, [];
    }

    ghost predicate Valid()
      reads this, dst
    {
      && count == |out| && cur <= dst.Length
      && cur == (if |out| <= dst.Length then |out| else dst.Length)
      && dst[..cur] == out[..cur]
    }

    /** `npf_putc_cnt` over `npf_bufputc` */
    method Put(c: char)
      requires Valid()
      modifies this, dst
      ensures Valid() && out == old(out) + [c]
    {
      count := count + 1;
      if cur < dst.Length {
        dst[cur] := c;
        cur := cur + 1;
      }
      out := out + [c];
    }

    method PutMany(c: char, n: nat)
      requires Valid()
      modifies this, dst
      ensures Valid() && out == old(out) + Repeat(c, n)
    {
      var left: nat := n;
      while left > 0
        invariant left <= n && Valid() && out == old(out) + Repeat(c, n - left)
      {
        Put(c);
        left := left - 1;
        assert Repeat(c, n - left) == Repeat(c, n - left - 1) + [c];
      }
    }

    method PutAll(s: string)
      requires Valid()
      modifies this, dst
      ensures Valid() && out == old(out) + s
    {
      for i := 0 to |s|
        invariant Valid() && out == old(out) + s[..i]
      {
        Put(s[i]);
        assert s[..i + 1] == s[..i] + [s[i]];
      }
      assert s[..|s|] == s;
    }
  }

  // ---------------------------------------------------------------- digits, last one first

  /** `buffer` holds the last digits of `whole` in reverse, and `rest` is what they leave. */
  ghost predicate Written(whole: string, rest: nat, buffer: seq<char>, base: nat, upper: bool)
    requires 2 <= base <= 16
  {
    && |buffer| <= |whole|
    && (forall i :: 0 <= i < |buffer| ==> buffer[i] == whole[|whole| - 1 - i])
    && (if rest > 0 || buffer == [] then whole[..|whole| - |buffer|] == Numeral(rest, base, upper)
        else |buffer| == |whole|)
  }

  /** The next digit to be written. */
  function LastDigit(v: nat, base: nat, upper: bool): char
    requires 2 <= base <= 16
  {
    DigitChar(v % base, upper)
  }

  /** What is left once the digit has been written. */
  function DropDigit(v: nat, base: nat): nat
    requires base > 0
  {
    v / base
  }

  lemma WrittenNext(whole: string, rest: nat, buffer: seq<char>, base: nat, upper: bool)
    requires 2 <= base <= 16 && Written(whole, rest, buffer, base, upper) && (rest > 0 || buffer == [])
    ensures |buffer| < |whole| && Written(whole, DropDigit(rest, base), buffer + [LastDigit(rest, base, upper)], base,
        upper)
  {
    hide DigitChar;
    var s := whole[..|whole| - |buffer|];
    if rest >= base {
      NumeralSplit(rest, base, upper);
      assert s[..|s| - 1] == whole[..|whole| - |buffer| - 1];
    } else {
      BelowBase(rest, base);
    }
  }

  lemma BelowBase(rest: nat, base: nat)
    requires rest < base
    ensures rest / base == 0 && rest % base == rest
  {
    Arith.ModUnique(rest, base, 0, rest);
  }

  /** Numerals of 64-bit values fit into the conversion buffer. */
  lemma FitsBuffer(v: nat, base: nat, upper: bool)
    requires 8 <= base <= 16 && v < UINT_LIMIT
    ensures |Numeral(v, base, upper)| <= 22
  {
    PowerGrows(base, 22);
    EightTo22();
    NumeralFits(v, base, upper, 22);
  }

  lemma {:induction false} PowerGrows(base: nat, k: nat)
    requires base >= 8
    ensures Power(base, k) >= Power(8, k)
  {
    if k > 0 {
      PowerGrows(base, k - 1);
      Arith.MulMono(8, base, Power(8, k - 1));
      Arith.MulMono(Power(8, k - 1), Power(base, k - 1), base);
    }
  }

  lemma EightTo22()
    ensures Power(8, 22) >= UINT_LIMIT
  {
    assert Power(8, 4) == 4096;
    assert Power(8, 8) == 0x100_0000;
    assert Power(8, 12) == 0x10_0000_0000;
    assert Power(8, 16) == 0x1_0000_0000_0000;
    assert Power(8, 20) == 0x1000_0000_0000_0000;
    assert Power(8, 22) == 64 * Power(8, 20);
  }

  /** `npf_utoa_rev` */
  method UtoaRev(val: nat, buf: array<char>, base: nat, upper: bool) returns (n: nat)
    requires 8 <= base <= 16 && val < UINT_LIMIT && buf.Length == BUFFER_SIZE
    modifies buf
    ensures 0 < n <= 22 && n == |Numeral(val, base, upper)|
    ensures forall i :: 0 <= i < n ==> buf[i] == Numeral(val, base, upper)[n - 1 - i]
  {
    hide LastDigit, DropDigit, Written, Numeral;
    var rest: nat := val;
    ghost var whole := Numeral(val, base, upper);
    FitsBuffer(val, base, upper);
    WrittenStarts(val, base, upper);
    n := 0;
    assert buf[..0] == [];
    while n == 0 || rest > 0
      invariant n <= |whole| <= 22 && Written(whole, rest, buf[..n], base, upper)
      decreases |whole| - n
    {
      WrittenNext(whole, rest, buf[..n], base, upper);
      ghost var before := buf[..n];
      buf[n] := LastDigit(rest, base, upper);
      n := n + 1;
      assert buf[..n] == before + [buf[n - 1]];
      rest := DropDigit(rest, base);
    }
    WrittenAll(whole, buf[..n], base, upper);
  }

  lemma WrittenStarts(val: nat, base: nat, upper: bool)
    requires 2 <= base <= 16
    ensures Written(Numeral(val, base, upper), val, [], base, upper)
  {
    var s := Numeral(val, base, upper);
    assert s[..|s|] == s;
  }

  lemma WrittenAll(whole: string, buffer: seq<char>, base: nat, upper: bool)
    requires 2 <= base <= 16 && Written(whole, 0, buffer, base, upper) && buffer != []
    ensures |buffer| == |whole| && forall i :: 0 <= i < |whole| ==> buffer[i] == whole[|whole| - 1 - i]
  {
  }

  /** `npf_bin_len`, as the loop that stands in for the processor's instruction. */
  method BinLen(u: nat) returns (n: nat)
    ensures n == |Numeral(u, 2, false)|
  {
    if u == 0 {
      return 1;
    }
    hide DigitChar;
    var rest: nat := u;
    n := 0;
    while rest > 0
      invariant n + (if rest > 0 then |Numeral(rest, 2, false)| else 0) == |Numeral(u, 2, false)|
    {
      if rest >= 2 { NumeralSplit(rest, 2, false); }
      n := n + 1;
      rest := rest / 2;
    }
  }

  // ---------------------------------------------------------------- conversions

  /** The converted digits: `length` of them, in `cbuf` in reverse unless they are binary. */
  ghost predicate Converted(f: Spec, v: int, cbuf: seq<char>, length: nat) {
    && length == |DigitsOf(f, v)| <= (if f.conv == Binary then length else |cbuf|)
    && (f.conv != Binary ==> forall i :: 0 <= i < length ==> cbuf[i] == DigitsOf(f, v)[length - 1 - i])
  }

  method Convert(f: Spec, v: int, cbuf: array<char>) returns (length: nat)
    requires InRange(f.conv, v) && cbuf.Length == BUFFER_SIZE
    modifies cbuf
    ensures Converted(f, v, cbuf[..], length)
  {
    hide Numeral;
    if v == 0 && f.hasPrec && f.prec == 0 {
      return 0;
    }
    if f.conv == Binary {
      length := BinLen(v);
      BinaryCase(v, f.upper);
    } else {
      // Negation is modulo 2^64, which leaves the magnitude of the lowest value intact.
      var uval := if v < 0 then v + UINT_LIMIT else v;
      if v < 0 {
        Negated(v);
        uval := (UINT_LIMIT - uval) % UINT_LIMIT;
      }
      length := UtoaRev(uval, cbuf, Base(f.conv), f.upper);
    }
  }

  lemma Negated(v: int)
    requires -(UINT_LIMIT / 2) <= v < 0
    ensures (UINT_LIMIT - (v + UINT_LIMIT)) % UINT_LIMIT == -v
  {
    assert UINT_LIMIT - (v + UINT_LIMIT) == -v;
  }

  /** Binary numerals have no letters. */
  lemma {:induction false} BinaryCase(v: nat, upper: bool)
    ensures Numeral(v, 2, false) == Numeral(v, 2, upper)
    decreases v
  {
    if v >= 2 {
      NumeralSplit(v, 2, upper);
      BinaryCase(v / 2, upper);
    }
  }

  /** The digits, most significant first. */
  method PutDigits(sink: Sink, f: Spec, v: int, cbuf: array<char>, length: nat)
    requires sink.Valid() && cbuf != sink.dst && InRange(f.conv, v) && Converted(f, v, cbuf[..], length)
    modifies sink, sink.dst
    ensures sink.Valid() && sink.out == old(sink.out) + DigitsOf(f, v)
  {
    hide Numeral, DigitChar;
    ghost var d := DigitsOf(f, v);
    var left: nat := length;
    while left > 0
      invariant left <= length && sink.Valid() && sink.out == old(sink.out) + d[..length - left]
    {
      left := left - 1;
      assert d[..length - left] == d[..length - left - 1] + [d[length - left - 1]];
      if f.conv == Binary {
        NumeralAt(v, 2, f.upper, length - left - 1);
        BitDigit(v / Power(2, left) % 2, f.upper);
        sink.Put('0' + (v / Power(2, left) % 2) as char);
      } else {
        sink.Put(cbuf[left]);
      }
    }
    assert d[..length] == d;
  }

  lemma BitDigit(b: nat, upper: bool)
    requires b < 2
    ensures DigitChar(b, upper) == '0' + b as char
  {
  }

  /** What comes before the digits: padding and sign, the sign first when zeros pad. */
  method PutFront(sink: Sink, leftJustified: bool, padChar: string, sign0: string, fieldPad: nat)
    requires sink.Valid() && padChar in {"", " ", "0"}
    modifies sink, sink.dst
    ensures sink.Valid() && sink.out == old(sink.out) + Front(leftJustified, padChar, sign0, fieldPad)
  {
    var sign := sign0;
    ghost var out0 := sink.out;
    if !leftJustified && padChar != "" {
      if padChar == "0" {
        sink.PutAll(sign);
        sign := "";
      }
      sink.PutMany(padChar[0], fieldPad);
    }
    sink.PutAll(sign);
    assert sink.out == out0 + Front(leftJustified, padChar, sign0, fieldPad);
  }

  ghost function Front(leftJustified: bool, padChar: string, sign: string, fieldPad: nat): string {
    if leftJustified || padChar == "" then sign
    else if padChar == "0" then sign + Repeat('0', fieldPad)
    else Repeat(' ', fieldPad) + sign
  }

  /** The character that pads the field, if any. */
  function PadChar(f: Spec, v: int, prec: nat): string {
    var leadingZeroPad := f.leadingZeroPad && !(f.hasPrec && f.conv in {SignedInt, Octal, HexInt, UnsignedInt});
    if !f.hasWidth then ""
    else if leadingZeroPad && !f.leftJustified then (if f.hasPrec && prec == 0 && v == 0 then " " else "0")
    else " "
  }

  /** One integer conversion of `npf_vpprintf`. */
  method PutInteger(sink: Sink, f: Spec, v: int)
    requires sink.Valid() && InRange(f.conv, v)
    modifies sink, sink.dst
    ensures sink.Valid() && sink.out == old(sink.out) + Field(f, v)
  {
    hide Numeral, Field, DigitsOf, PadChar, Front, ZeroFilled, Converted;
    var prec := if !f.hasPrec && f.conv == PointerValue then 16 else f.prec;
    var cbuf := new char[BUFFER_SIZE];
    var sign := if f.conv == SignedInt then (if v < 0 then "-" else f.prepend) else "";
    var length := Convert(f, v, cbuf);
    ConvertedLength(f, v, cbuf[..], length);
    var padChar := PadChar(f, v, prec);
    PadCharIs(f, v, prec);
    var precPad := Max(prec, length) - length;
    var fieldPad := Max(f.width, length + |sign| + precPad) - (length + |sign| + precPad);
    ghost var out0 := sink.out;
    PutFront(sink, f.leftJustified, padChar, sign, fieldPad);
    sink.PutMany('0', precPad);
    PutDigits(sink, f, v, cbuf, length);
    ghost var after := "";
    if f.leftJustified && padChar != "" {
      sink.PutMany(padChar[0], fieldPad);
      after := Repeat(' ', fieldPad);
    }
    FieldAssembled(f, v, precPad, fieldPad, after, out0);
    assert sink.out ==
        out0 + Front(f.leftJustified, padChar, sign, fieldPad) + Repeat('0', precPad) + DigitsOf(f, v) + after;
  }

  lemma ConvertedLength(f: Spec, v: int, cbuf: seq<char>, length: nat)
    requires Converted(f, v, cbuf, length)
    ensures length == |DigitsOf(f, v)|
  {
  }

  lemma PadCharIs(f: Spec, v: int, prec: nat)
    requires prec == Precision(f)
    ensures PadChar(f, v, prec) in {"", " ", "0"} && (f.leftJustified ==> PadChar(f, v, prec) == if f.hasWidth then " "
        else "")
  {
  }

  /** The parts, put out one after the other, are the field. */
  lemma FieldAssembled(f: Spec, v: int, precPad: nat, fieldPad: nat, after: string, out: string)
    requires precPad == Max(Precision(f), |DigitsOf(f, v)|) - |DigitsOf(f, v)|
    requires fieldPad == Max(f.width, |DigitsOf(f, v)| + |Sign(f, v)| + precPad) - (|DigitsOf(f, v)| + |Sign(f,
        v)| + precPad)
    requires after == if f.leftJustified && f.hasWidth then Repeat(' ', fieldPad) else ""
    ensures out + Front(f.leftJustified, PadChar(f, v, Precision(f)), Sign(f, v), fieldPad) + Repeat('0',
        precPad) + DigitsOf(f, v) + after == out + Field(f, v)
  {
    hide Sign, DigitsOf;
    var n, s := Number(f, v), Sign(f, v);
    var front := Front(f.leftJustified, PadChar(f, v, Precision(f)), s, fieldPad);
    assert Field(f, v) == front + n + after;
    assert out + front + Repeat('0', precPad) + DigitsOf(f, v) + after == out + (front + n + after);
  }

  // ---------------------------------------------------------------- strings

  datatype TextSpec = TextSpec(
    leftJustified: bool, leadingZeroPad: bool, hasWidth: bool, width: nat, hasPrec: bool, prec: nat)

  /** The part of a string that is printed. */
  function Shown(f: TextSpec, text: string): string {
    if f.hasPrec && f.prec < |text| then text[..f.prec] else text
  }

  /** Characters padded to the width; a zero flag pads strings and characters as well. */
  function Padded(f: TextSpec, s: string): string {
    var fill := if f.hasWidth then Max(f.width, |s|) - |s| else 0;
    if f.leftJustified then s + Repeat(' ', fill) else Repeat(if f.leadingZeroPad then '0' else ' ', fill) + s
  }

  /** The whole field for a string. */
  function TextField(f: TextSpec, text: string): string { Padded(f, Shown(f, text)) }

  /** A string's field is as long as its width or what is shown of the string. */
  lemma TextFieldLength(f: TextSpec, text: string)
    ensures |TextField(f, text)| ==
        Max(if f.hasWidth then f.width else 0, if f.hasPrec && f.prec < |text| then f.prec else |text|)
  {
  }

  /** A string's field holds the first characters of the string, at its start or at its end,
      and spaces or zeros elsewhere. */
  lemma TextFieldAt(f: TextSpec, text: string)
    ensures var n, s := if f.hasPrec && f.prec < |text| then f.prec else |text|, TextField(f, text);
            && n <= |s|
            && (f.leftJustified ==> s[..n] == text[..n] && forall i :: n <= i < |s| ==> s[i] == ' ')
            && (!f.leftJustified ==>
                  && s[|s| - n..] == text[..n]
                  && forall i :: 0 <= i < |s| - n ==> s[i] == if f.leadingZeroPad then '0' else ' ')
  {
    assert text[..|text|] == text;
  }

  method PutPadded(sink: Sink, f: TextSpec, s: string)
    requires sink.Valid()
    modifies sink, sink.dst
    ensures sink.Valid() && sink.out == old(sink.out) + Padded(f, s)
  {
    var padChar := if !f.hasWidth then "" else if f.leadingZeroPad && !f.leftJustified then "0" else " ";
    var fieldPad := Max(f.width, |s|) - |s|;
    ghost var out0 := sink.out;
    if !f.leftJustified && padChar != "" {
      sink.PutMany(padChar[0], fieldPad);
    }
    sink.PutAll(s);
    if f.leftJustified && padChar != "" {
      sink.PutMany(padChar[0], fieldPad);
    }
    assert sink.out == out0 + Padded(f, s);
  }

  method PutText(sink: Sink, f: TextSpec, text: string)
    requires sink.Valid()
    modifies sink, sink.dst
    ensures sink.Valid() && sink.out == old(sink.out) + TextField(f, text)
  {
    var length: nat := 0;
    while (!f.hasPrec || length < f.prec) && length < |text|
      invariant length <= |text| && (f.hasPrec ==> length <= f.prec)
    {
      length := length + 1;
    }
    assert text[..length] == Shown(f, text);
    PutPadded(sink, f, text[..length]);
  }

  /** The zero flag shows in a string's field exactly where there is a width to fill on the left. */
  lemma ZeroFlagOnText(f: TextSpec, text: string)
    requires f.leadingZeroPad
    ensures TextField(f, text) == TextField(f.(leadingZeroPad := false), text) <==>
            f.leftJustified || !f.hasWidth || f.width <= |Shown(f, text)|
  {
    var g, s := f.(leadingZeroPad := false), Shown(f, text);
    if !f.leftJustified {
      if f.hasWidth && f.width > |s| {
        assert TextField(f, text)[0] == '0' && TextField(g, text)[0] == ' ';
      } else {
        assert Repeat('0', 0) + s == Repeat(' ', 0) + s;
      }
    }
  }

  // ---------------------------------------------------------------- single characters

  /** The whole field for a single character; its precision is taken for one of digits. */
  function CharField(f: TextSpec, c: char): string { Padded(f, Repeat('0', Max(f.prec, 1) - 1) + [c]) }

  /** A character's field is as long as its width, or its precision, or the character. */
  lemma CharFieldLength(f: TextSpec, c: char)
    ensures |CharField(f, c)| == Max(if f.hasWidth then f.width else 0, Max(f.prec, 1))
  {
  }

  /** The precision of a character shows, whether it counts or not, unless it is at most one or
      its zeros are among those that fill the width. */
  lemma CharPrecision(f: TextSpec, c: char)
    ensures CharField(f, c) == CharField(f.(prec := 0), c) <==>
            f.prec <= 1 || (f.leadingZeroPad && !f.leftJustified && f.hasWidth && f.width >= f.prec)
  {
    var g := f.(prec := 0);
    CharFieldLength(f, c);
    CharFieldLength(g, c);
    assert Repeat('0', 0) + [c] == [c];
    if f.prec > 1 && f.hasWidth && f.width >= f.prec {
      CharFieldAt(f, c);
      CharFieldAt(g, c);
      if f.leftJustified {
        assert CharField(f, c)[0] == '0' && CharField(g, c)[0] == c;
        assert CharField(f, c)[f.prec - 1] == c && CharField(g, c)[f.prec - 1] == ' ';
      } else if f.leadingZeroPad {
        assert CharField(f, c) == CharField(g, c);
      } else {
        assert CharField(f, c)[f.width - f.prec] == '0' && CharField(g, c)[f.width - f.prec] == ' ';
      }
    }
  }

  /** The characters of a character's field, where a width is left to fill. */
  lemma CharFieldAt(f: TextSpec, c: char)
    requires f.hasWidth && f.width >= Max(f.prec, 1)
    ensures var n, s := Max(f.prec, 1), CharField(f, c);
            && |s| == f.width
            && (f.leftJustified ==>
                  && (forall i :: 0 <= i < n - 1 ==> s[i] == '0') && s[n - 1] == c
                  && (forall i :: n <= i < f.width ==> s[i] == ' '))
            && (!f.leftJustified ==>
                  && (forall i :: 0 <= i < f.width - n ==> s[i] == if f.leadingZeroPad then '0' else ' ')
                  && (forall i :: f.width - n <= i < f.width - 1 ==> s[i] == '0') && s[f.width - 1] == c)
  {
  }

  /** The zero flag shows in a character's field exactly where there is a width to fill on the
      left. */
  lemma ZeroFlagOnChar(f: TextSpec, c: char)
    requires f.leadingZeroPad
    ensures CharField(f, c) == CharField(f.(leadingZeroPad := false), c) <==>
            f.leftJustified || !f.hasWidth || f.width <= Max(f.prec, 1)
  {
    var g, s := f.(leadingZeroPad := false), Repeat('0', Max(f.prec, 1) - 1) + [c];
    if !f.leftJustified {
      if f.hasWidth && f.width > |s| {
        assert CharField(f, c)[0] == '0' && CharField(g, c)[0] == ' ';
      } else {
        assert Repeat('0', 0) + s == Repeat(' ', 0) + s;
      }
    }
  }

  method PutChar(sink: Sink, f: TextSpec, c: char)
    requires sink.Valid()
    modifies sink, sink.dst
    ensures sink.Valid() && sink.out == old(sink.out) + CharField(f, c)
  {
    PutPadded(sink, f, Repeat('0', Max(f.prec, 1) - 1) + [c]);
  }
}
