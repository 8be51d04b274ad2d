/** What formats print, told by their own characters: the value a number is converted to, its
    base, its letters and its sign, and the text around the directives. */
module Printed {
  import opened Options
  import opened Arith
  import opened Digits
  import opened Printf
  import opened Formats

  // ---------------------------------------------------------------- types of arguments

  /** `r` is a value of an integer type with so many values. */
  predicate InType(signed: bool, range: nat, r: int) {
    if signed then 0 <= 2 * r + range < 2 * range else 0 <= r < range
  }

  predicate Congruent(u: int, v: int, range: nat)
    requires range > 0
  {
    (u - v) % range == 0
  }

  /** `r` is the only value of the type that is congruent to `v`, and is `v` if that is one. */
  ghost predicate ConvertsTo(signed: bool, range: nat, v: int, r: int)
    requires range > 0
  {
    && InType(signed, range, r) && Congruent(r, v, range) && (InType(signed, range, v) ==> r == v)
    && forall u: int :: InType(signed, range, u) && Congruent(u, v, range) ==> u == r
  }

  lemma NothingBetween(x: int, m: nat)
    requires m > 0 && 0 < x + m < 2 * m && x % m == 0
    ensures x == 0
  {
    if x > 0 {
      ModUnique(x, m, 0, x);
    } else if x < 0 {
      ModUnique(x + m, m, 0, x + m);
      assert x == m * (x / m);
      assert x + m == m * (x / m + 1);
      NoMultiple(x / m + 1, m, x + m);
    }
  }

  lemma NoMultiple(q: int, m: nat, x: int)
    requires 0 < x < m
    ensures x != m * q
  {
    if q >= 1 {
      MulMono(1, q, m);
    } else {
      assert m * q <= 0;
    }
  }

  lemma OnlyOne(signed: bool, range: nat, v: int, r: int)
    requires range > 0 && InType(signed, range, r) && Congruent(r, v, range)
    ensures ConvertsTo(signed, range, v, r)
  {
    forall u: int | InType(signed, range, u) && Congruent(u, v, range) ensures u == r {
      Difference(u - v, r - v, range);
      NothingBetween(u - r, range);
    }
    assert (v - v) % range == 0;
  }

  lemma Difference(a: int, b: int, m: nat)
    requires m > 0 && a % m == 0 && b % m == 0
    ensures (a - b) % m == 0
  {
    var p, q := a / m, b / m;
    assert a - b == m * (p - q);
    IsMultiple(p - q, m);
  }

  lemma IsMultiple(q: int, m: nat)
    requires m > 0
    ensures m * q % m == 0
  {
    var x := m * q;
    var r := x % m;
    assert x == m * (x / m) + r;
    assert r == m * (q - x / m);
    if r > 0 {
      NoMultiple(q - x / m, m, r);
    }
  }

  /** The sizes of the types: a char has 8 bits, a short 16 and an int 32; all others have 64. */
  ghost predicate Converts(c: Conversion, m: Modifier, v: int, r: int) {
    if c == PointerValue then ConvertsTo(false, 0x1_0000_0000_0000_0000, v, r)
    else
      match m
      case Tiny => ConvertsTo(c == SignedInt, 0x100, v, r)
      case Short => ConvertsTo(c == SignedInt, 0x1_0000, v, r)
      case Plain => ConvertsTo(c == SignedInt, 0x1_0000_0000, v, r)
      case _ => ConvertsTo(c == SignedInt, 0x1_0000_0000_0000_0000, v, r)
  }

  /** An argument is converted to the type that its directive names. */
  lemma CastIs(c: Conversion, m: Modifier, v: int)
    ensures Converts(c, m, v, Cast(c, m, v))
  {
    hide ConvertsTo;
    OnlyOne(c == SignedInt, TypeRange(c, m), v, Cast(c, m, v));
  }

  // ---------------------------------------------------------------- one directive

  /** A format that is one directive prints that directive's field. */
  lemma Alone(t: string, d: Directive, arg: Arg)
    requires Parse(t) == Some((d, [])) && d.kind != Percent && d.widthChoice != Star && d.precChoice != Star
    requires d.kind == Text <==> arg.Str?
    ensures Formatted(d, [arg]).Some? && Output("%" + t, [arg]) == Some(Formatted(d, [arg]).value.0)
  {
    hide Parse, Field, TextField, CharField;
    assert ("%" + t)[1..] == t;
    assert [arg][1..] == [];
    assert Output([], []) == Some([]);
    var s := Formatted(d, [arg]).value.0;
    assert s + [] == s;
  }

  /** What one directive prints for a number scans back, in the base of its conversion, to the
      number converted to the type it names, whatever the flags, width and precision. */
  lemma DirectivePrints(d: Directive, c: Conversion, v: int)
    requires Writable(d) && d.kind == Integer(c) && d.widthChoice != Star && d.precChoice != Star
    ensures Output("%" + Show(d), [Num(v)]).Some?
    ensures var base := if c == Binary then 2 else if c == Octal then 8
                        else if c == HexInt || c == PointerValue then 16 else 10;
            Converts(c, d.modifier, v, Scan(Output("%" + Show(d), [Num(v)]).value, base))
  {
    hide Show, Parse, Field, Converts, Scan;
    RoundTrip(d, "");
    assert Show(d) + "" == Show(d);
    Alone(Show(d), d, Num(v));
    CastIs(c, d.modifier, v);
    FieldReadsBack(SpecOf(d, c), Cast(c, d.modifier, v));
  }

  /** A directive without flags, width and precision. */
  function Bare(m: Modifier, upper: bool, kind: Kind): Directive {
    Directive(false, false, "", Missing, 0, Missing, 0, m, upper, kind)
  }

  lemma BareRead(m: Modifier, ch: char)
    requires KindOf(ch).Some? && Apart(ch) && ch !in {'.', 'h', 'l', 'j', 'z', 't'}
    ensures Parse(ShowModifier(m) + [ch]) == Some((Bare(m, KindOf(ch).value.1, KindOf(ch).value.0), []))
  {
    hide TakeModifier, ShowModifier, KindOf;
    ModifierRead(m, [ch]);
  }

  /** The modifiers by their letters. */
  lemma ModifierNamed(m: string) returns (k: Modifier)
    requires m in ["", "h", "hh", "l", "ll", "j", "z", "t"]
    ensures ShowModifier(k) == m
    ensures m == "" ==> k == Plain
    ensures m == "h" ==> k == Short
    ensures m == "hh" ==> k == Tiny
    ensures m in ["l", "ll", "j", "z", "t"] ==> k !in {Plain, Short, Tiny}
  {
    if m == "" { k := Plain; }
    else if m == "h" { k := Short; }
    else if m == "hh" { k := Tiny; }
    else if m == "l" { k := Long; }
    else if m == "ll" { k := LongLong; }
    else if m == "j" { k := IntMax; }
    else if m == "z" { k := SizeT; }
    else { k := PtrDiff; }
  }

  /** How many values the type has that a modifier and a letter name. */
  function Values(m: string, ch: char): (n: nat)
    ensures n > 0
  {
    if ch == 'p' then 0x1_0000_0000_0000_0000
    else if m == "hh" then 0x100
    else if m == "h" then 0x1_0000
    else if m == "" then 0x1_0000_0000
    else 0x1_0000_0000_0000_0000
  }

  /** The base a letter stands for. */
  function BaseOf(ch: char): nat {
    match ch
    case 'd' => 10
    case 'i' => 10
    case 'u' => 10
    case 'o' => 8
    case 'b' => 2
    case 'B' => 2
    case _ => 16
  }

  /** The letters of the number conversions. */
  lemma LetterNamed(ch: char) returns (c: Conversion)
    requires ch in "diuoxXbBp"
    ensures KindOf(ch) == Some((Integer(c), ch == 'X' || ch == 'B')) && Base(c) == BaseOf(ch)
    ensures (c == SignedInt <==> ch in "di") && (c == PointerValue <==> ch == 'p')
    ensures Apart(ch) && ch !in {'.', 'h', 'l', 'j', 'z', 't'}
  {
    c := KindOf(ch).value.0.conv;
  }

  /** Directives of two or three characters: the value, the base, the letters, and that nothing
      is in front of the number. */
  lemma LetterPrints(m: string, ch: char, v: int)
    requires m in ["", "h", "hh", "l", "ll", "j", "z", "t"] && ch in "diuoxXbBp"
    ensures Output("%" + (m + [ch]), [Num(v)]).Some?
    ensures var s := Output("%" + (m + [ch]), [Num(v)]).value;
            && ConvertsTo(ch in "di", Values(m, ch), v, Scan(s, BaseOf(ch)))
            && (ch == 'p' ==> |s| == 16)
            && (ch in "uoxXbB" && |s| > 1 ==> s[0] != '0')
            && (ch in "di" && |s| > 1 ==> s[0] != '0' && (s[0] == '-' ==> s[1] != '0'))
            && forall i :: 0 <= i < |s| ==>
                 s[i] in (if ch == 'X' || ch == 'B' then "0123456789ABCDEF" else "0123456789abcdef")
                 || (i == 0 && s[i] == '-' && ch in "di")
  {
    hide Field, ConvertsTo, Scan, Parse, InRange, KindOf, ShowModifier, Apart, Output, Base, BaseOf;
    var k := ModifierNamed(m);
    var c := LetterNamed(ch);
    BareRead(k, ch);
    var d := Bare(k, ch == 'X' || ch == 'B', Integer(c));
    Alone(m + [ch], d, Num(v));
    CastIs(c, k, v);
    var f, r := SpecOf(d, c), Cast(c, k, v);
    FieldReadsBack(f, r);
    BareField(f, r);
  }

  /** The field of a directive without flags, width and precision. */
  lemma BareField(f: Spec, v: int)
    requires InRange(f.conv, v) && !f.hasWidth && !f.hasPrec && f.prec == 0 && f.prepend == "" && !f.leftJustified
        && !f.leadingZeroPad
    ensures var s := Field(f, v);
            && (f.conv == PointerValue ==> |s| == 16)
            && (f.conv != PointerValue && v >= 0 && |s| > 1 ==> s[0] != '0')
            && (v < 0 ==> |s| > 1 && s[0] == '-' && s[1] != '0')
            && forall i :: 0 <= i < |s| ==>
                 s[i] in (if f.upper then "0123456789ABCDEF" else "0123456789abcdef")
                 || (i == 0 && s[i] == '-' && v < 0)
  {
    hide InRange, DigitsOf;
    var d := DigitsOf(f, v);
    DigitsAre(f, v);
    SignIsBare(f, v);
    if f.conv == PointerValue { SixteenDigits(f, v); }
    var zeros, sign := Max(Precision(f), |d|) - |d|, if v < 0 then "-" else "";
    var letters := if f.upper then "0123456789ABCDEF" else "0123456789abcdef";
    assert Field(f, v) == sign + (Repeat('0', zeros) + d);
    assert letters[0] == '0' && '0' in letters;
    forall i | |sign| <= i < |Field(f, v)| ensures Field(f, v)[i] in letters {
      if i >= |sign| + zeros {
        assert Field(f, v)[i] == d[i - |sign| - zeros] && d[i - |sign| - zeros] in d;
      } else {
        assert Field(f, v)[i] == '0';
      }
    }
  }

  lemma SignIsBare(f: Spec, v: int)
    requires InRange(f.conv, v) && f.prepend == ""
    ensures Sign(f, v) == if v < 0 then "-" else ""
  {
  }

  lemma SixteenDigits(f: Spec, v: int)
    requires InRange(f.conv, v) && f.conv == PointerValue
    ensures |DigitsOf(f, v)| <= 16
  {
    hide Numeral;
    assert Power(16, 4) == 0x1_0000;
    assert Power(16, 8) == 0x1_0000_0000;
    assert Power(16, 12) == 0x1_0000_0000_0000;
    assert Power(16, 16) == 0x1_0000_0000_0000_0000;
    NumeralFits(v, 16, f.upper, 16);
  }

  // ---------------------------------------------------------------- whole formats

  /** `s` in front of what is printed, if something is. */
  function Behind(s: string, r: Option<string>): Option<string> {
    match r
    case None => None
    case Some(t) => Some(s + t)
  }

  lemma CharacterPrints(c: char, rest: string, args: seq<Arg>)
    requires c != '%'
    ensures Output([c] + rest, args) == Behind([c], Output(rest, args))
  {
    hide Parse, Directed;
    assert ([c] + rest)[1..] == rest;
  }

  /** Text without a percent sign is printed as it stands. */
  lemma {:induction false} TextPrints(text: string, rest: string, args: seq<Arg>)
    requires '%' !in text
    ensures Output(text + rest, args) == Behind(text, Output(rest, args))
    decreases |text|
  {
    hide Output;
    var printed := Output(rest, args);
    if text == [] {
      assert text + rest == rest;
      assert printed.Some? ==> [] + printed.value == printed.value;
    } else {
      TextPrints(text[1..], rest, args);
      assert text + rest == [text[0]] + (text[1..] + rest);
      assert text[0] in text;
      CharacterPrints(text[0], text[1..] + rest, args);
      assert printed.Some? ==> [text[0]] + (text[1..] + printed.value) == text + printed.value;
    }
  }

  /** A percent sign with no directive behind it is printed too. */
  lemma StrayPercent(rest: string, args: seq<Arg>)
    requires Parse(rest) == None
    ensures Output("%" + rest, args) == Behind("%", Output(rest, args))
  {
    hide Parse;
    assert ("%" + rest)[1..] == rest;
  }

  /** A directive prints its field, and the format goes on with the arguments it leaves. */
  lemma DirectiveThenRest(d: Directive, rest: string, args: seq<Arg>)
    requires Writable(d)
    ensures Output("%" + (Show(d) + rest), args) ==
            if Directed(d, args).None? then None
            else Behind(Directed(d, args).value.0, Output(rest, Directed(d, args).value.1))
  {
    hide Parse, Show, Directed, Writable;
    RoundTrip(d, rest);
    assert ("%" + (Show(d) + rest))[1..] == Show(d) + rest;
  }

  /** Whether width and precision were written down or taken from arguments makes no difference
      to a field. */
  lemma ChoicesApart(d: Directive, e: Directive, args: seq<Arg>)
    requires e == d.(widthChoice := e.widthChoice, precChoice := e.precChoice)
    requires (d.widthChoice == Missing <==> e.widthChoice == Missing)
        && (d.precChoice == Missing <==> e.precChoice == Missing)
    ensures Formatted(d, args) == Formatted(e, args)
  {
    hide Field, TextField, CharField, Cast;
  }

  /** A width from an argument is as one written down; a negative one also justifies to the
      left, like the flag. */
  lemma WidthArgument(d: Directive, w: int, args: seq<Arg>)
    requires d.widthChoice == Star && -0x8000_0000 < w < 0x8000_0000
    ensures w >= 0 ==> Directed(d, [Num(w)] + args) == Directed(d.(widthChoice := Given, width := w), args)
    ensures w < 0 ==>
        Directed(d, [Num(w)] + args) == Directed(d.(widthChoice := Given, width := -w, left := true), args)
  {
    hide Formatted;
    assert ([Num(w)] + args)[1..] == args;
    var e := if w < 0 then d.(width := -w, left := true) else d.(width := w);
    assert StarWidth(d, [Num(w)] + args) == Some((e, args));
    match StarPrecision(e, args)
    case None =>
    case Some((d2, args2)) => ChoicesApart(d2, d2.(widthChoice := Given), args2);
  }

  /** A precision from an argument is as one written down, and a negative one is none. */
  lemma PrecisionArgument(d: Directive, p: int, args: seq<Arg>)
    requires d.widthChoice != Star && d.precChoice == Star && -0x8000_0000 <= p < 0x8000_0000
    ensures p >= 0 ==> Directed(d, [Num(p)] + args) == Directed(d.(precChoice := Given, prec := p), args)
    ensures p < 0 ==> Directed(d, [Num(p)] + args) == Directed(d.(precChoice := Missing, prec := 0), args)
  {
    hide Formatted;
    assert ([Num(p)] + args)[1..] == args;
    ChoicesApart(d.(prec := if p < 0 then 0 else p), d.(prec := if p < 0 then 0 else p, precChoice := Given), args);
  }

  /** Strings and characters are printed as they are, and two percent signs print one. */
  lemma TextDirectives(text: string, v: int, args: seq<Arg>)
    ensures Output("%s", [Str(text)]) == Some(text)
    ensures Output("%c", [Num(v)]) == Some([(v % 256) as char])
    ensures Output("%%", []) == Some("%")
  {
    hide Parse;
    BareRead(Plain, 's');
    BareRead(Plain, 'c');
    BareRead(Plain, '%');
    var none := ShowModifier(Plain);
    assert none + "s" == "s" && none + "c" == "c" && none + "%" == "%";
    assert "%" + "s" == "%s" && "%" + "c" == "%c" && "%%"[1..] == "%";
    Alone("s", Bare(Plain, false, Text), Str(text));
    Alone("c", Bare(Plain, false, Character), Num(v));
    NoPadding(text);
    NoPadding([(v % 256) as char]);
    NoPadding("%");
    assert Output([], []) == Some([]);
    assert Directed(Bare(Plain, false, Percent), []) == Some(("%", []));
    assert Parse("%%"[1..]) == Some((Bare(Plain, false, Percent), []));
    assert "%" + [] == "%";
  }

  lemma NoPadding(s: string)
    ensures Padded(TextSpec(false, false, false, 0, false, 0), s) == s
    ensures |s| == 1 ==> Repeat('0', 0) + [s[0]] == s
  {
    assert Repeat(' ', 0) + s == s;
  }

  // ---------------------------------------------------------------- signs

  /** One flag that asks for a sign is read. */
  lemma OneFlag(c: char, t: string, f: Flags)
    requires c in "+ "
    ensures TakeFlags([c] + t, f) == TakeFlags(t, f.(prepend := if c == '+' || f.prepend == "" then [c] else f.prepend))
  {
    assert First([c] + t) == c && Rest([c] + t) == t;
  }

  /** Flags that ask for a sign, in any order. */
  lemma SignFlags(flags: string)
    requires flags in ["", "+", " ", "+ ", " +"]
    ensures TakeFlags(flags + "d", Flags(false, false, "")) ==
            (Flags(false, false, if '+' in flags then "+" else if ' ' in flags then " " else ""), "d")
  {
    var none := Flags(false, false, "");
    var plus, space := none.(prepend := "+"), none.(prepend := " ");
    assert TakeFlags("d", none) == (none, "d") && TakeFlags("d", plus) == (plus, "d")
        && TakeFlags("d", space) == (space, "d");
    hide TakeFlags;
    assert "" + "d" == "d";
    if |flags| == 1 {
      assert flags + "d" == [flags[0]] + "d";
      OneFlag(flags[0], "d", none);
    } else if |flags| == 2 {
      assert flags + "d" == [flags[0]] + ([flags[1]] + "d");
      OneFlag(flags[0], [flags[1]] + "d", none);
      OneFlag(flags[1], "d", none.(prepend := [flags[0]]));
    }
  }

  lemma SignedRead(flags: string)
    requires flags in ["", "+", " ", "+ ", " +"]
    ensures Parse(flags + "d") ==
            Some((Bare(Plain, false, Integer(SignedInt)).(prepend :=
                if '+' in flags then "+" else if ' ' in flags then " " else ""), []))
  {
    hide TakeFlags, TakeModifier;
    SignFlags(flags);
    ModifierRead(Plain, "d");
    assert ShowModifier(Plain) + "d" == "d";
  }

  /** Plus and space ask for a sign of numbers that have none; a plus beats a space. */
  lemma SignsAskedFor(flags: string, v: int)
    requires flags in ["+", " ", "+ ", " +"]
    ensures Output("%d", [Num(v)]).Some?
    ensures var s := Output("%d", [Num(v)]).value;
            Output("%" + (flags + "d"), [Num(v)]) ==
            Some(if '-' in s then s else if '+' in flags then "+" + s else " " + s)
  {
    hide Parse, Output, Field, Cast;
    var d := Bare(Plain, false, Integer(SignedInt));
    var p := if '+' in flags then "+" else " ";
    SignedRead("");
    SignedRead(flags);
    assert "" + "d" == "d" && "%" + "d" == "%d";
    Alone("d", d, Num(v));
    Alone(flags + "d", d.(prepend := p), Num(v));
    var r := Cast(SignedInt, Plain, v);
    SignedField(SpecOf(d, SignedInt), p, r);
  }

  /** A field with and without a sign asked for. */
  lemma SignedField(f: Spec, p: string, v: int)
    requires f.conv == SignedInt && InRange(SignedInt, v) && f.prepend == "" && p in ["+", " "]
    requires !f.hasWidth && !f.leftJustified && !f.leadingZeroPad
    ensures '-' in Field(f, v) <==> v < 0
    ensures Field(f.(prepend := p), v) == if v < 0 then Field(f, v) else p + Field(f, v)
  {
    hide DigitsOf, InRange, Field, Number, Sign, Precision;
    SignPrinted(f, v);
    SignFirst(f, v);
    SignFirst(f.(prepend := p), v);
    SignApart(f, p, v);
    assert "" + Number(f, v) == Number(f, v);
  }

  lemma SignFirst(f: Spec, v: int)
    requires f.conv == SignedInt && !f.hasWidth && !f.leftJustified && !f.leadingZeroPad
    ensures Field(f, v) == (if v < 0 then "-" else f.prepend) + Number(f, v)
  {
    hide Number;
    assert Repeat(' ', 0) + Sign(f, v) == Sign(f, v);
  }

  lemma SignApart(f: Spec, p: string, v: int)
    ensures Number(f.(prepend := p), v) == Number(f, v)
  {
    assert DigitsOf(f.(prepend := p), v) == DigitsOf(f, v);
  }
}
