/** Format strings: how a directive is parsed, and what a whole format prints for its arguments. */
module Formats {
  import opened Options
  import opened Digits
  import opened Printf

  datatype Choice = Missing | Given | Star

  datatype Modifier = Plain | Short | Tiny | Long | LongLong | IntMax | SizeT | PtrDiff

  datatype Kind = Percent | Character | Text | Integer(conv: Conversion)

  /** A directive as parsed: width and precision may be missing, given or left to an argument. */
  datatype Directive = Directive(
    left: bool, zero: bool, prepend: string,
    widthChoice: Choice, width: nat, precChoice: Choice, prec: nat,
    modifier: Modifier, upper: bool, kind: Kind)

  /** The next character, with the terminator at the end. */
  function First(t: string): char { if t == [] then '\0' else t[0] }

  function Rest(t: string): string { if t == [] then [] else t[1..] }

  // ---------------------------------------------------------------- the grammar

  datatype Flags = Flags(left: bool, zero: bool, prepend: string)

  function TakeFlags(t: string, f: Flags): (r: (Flags, string))
    ensures |r.1| <= |t|
  {
    match First(t)
    case '-' => TakeFlags(Rest(t), f.(left := true))
    case '0' => TakeFlags(Rest(t), f.(zero := true))
    case '+' => TakeFlags(Rest(t), f.(prepend := "+"))
    case ' ' => TakeFlags(Rest(t), if f.prepend == "" then f.(prepend := " ") else f)
    case _ => (f, t)
  }

  predicate Decimal(c: char) { '0' <= c <= '9' }

  function TakeDigits(t: string, acc: nat): (r: (nat, string))
    ensures |r.1| <= |t|
  {
    if Decimal(First(t)) then TakeDigits(Rest(t), acc * 10 + (First(t) - '0') as nat) else (acc, t)
  }

  function TakeWidth(t: string): (r: (Choice, nat, string))
    ensures |r.2| <= |t|
  {
    if First(t) == '*' then (Star, 0, Rest(t))
    else
      var (n, u) := TakeDigits(t, 0);
      (if Decimal(First(t)) then Given else Missing, n, u)
  }

  /** A precision written with a minus sign counts as missing, but its number is kept. */
  function TakePrecision(t: string): (r: (Choice, nat, string))
    ensures |r.2| <= |t|
  {
    if First(t) != '.' then (Missing, 0, t)
    else if First(Rest(t)) == '*' then (Star, 0, Rest(Rest(t)))
    else if First(Rest(t)) == '-' then var (n, u) := TakeDigits(Rest(Rest(t)), 0); (Missing, n, u)
    else var (n, u) := TakeDigits(Rest(t), 0); (Given, n, u)
  }

  function TakeModifier(t: string): (r: (Modifier, string))
    ensures |r.1| <= |t|
  {
    match First(t)
    case 'h' => if First(Rest(t)) == 'h' then (Tiny, Rest(Rest(t))) else (Short, Rest(t))
    case 'l' => if First(Rest(t)) == 'l' then (LongLong, Rest(Rest(t))) else (Long, Rest(t))
    case 'j' => (IntMax, Rest(t))
    case 'z' => (SizeT, Rest(t))
    case 't' => (PtrDiff, Rest(t))
    case _ => (Plain, t)
  }

  /** What a conversion character stands for, and whether it asks for capitals. */
  function KindOf(c: char): Option<(Kind, bool)> {
    match c
    case '%' => Some((Percent, false))
    case 'c' => Some((Character, false))
    case 's' => Some((Text, false))
    case 'i' => Some((Integer(SignedInt), false))
    case 'd' => Some((Integer(SignedInt), false))
    case 'o' => Some((Integer(Octal), false))
    case 'u' => Some((Integer(UnsignedInt), false))
    case 'X' => Some((Integer(HexInt), true))
    case 'x' => Some((Integer(HexInt), false))
    case 'p' => Some((Integer(PointerValue), false))
    case 'B' => Some((Integer(Binary), true))
    case 'b' => Some((Integer(Binary), false))
    case _ => None
  }

  /** The directive behind a percent sign, and what follows it. */
  function Parse(t: string): (r: Option<(Directive, string)>)
    ensures r.Some? ==> |r.value.1| < |t|
  {
    var (f, t1) := TakeFlags(t, Flags(false, false, ""));
    var (wc, w, t2) := TakeWidth(t1);
    var (pc, p, t3) := TakePrecision(t2);
    var (m, t4) := TakeModifier(t3);
    match KindOf(First(t4))
    case None => None
    case Some((k, upper)) => Some((Directive(f.left, f.zero, f.prepend, wc, w, pc, p, m, upper, k), Rest(t4)))
  }

  // ---------------------------------------------------------------- directives written out

  function ShowModifier(m: Modifier): string {
    match m
    case Plain => ""
    case Short => "h"
    case Tiny => "hh"
    case Long => "l"
    case LongLong => "ll"
    case IntMax => "j"
    case SizeT => "z"
    case PtrDiff => "t"
  }

  function ShowKind(k: Kind, upper: bool): char {
    match k
    case Percent => '%'
    case Character => 'c'
    case Text => 's'
    case Integer(SignedInt) => 'd'
    case Integer(Octal) => 'o'
    case Integer(UnsignedInt) => 'u'
    case Integer(HexInt) => if upper then 'X' else 'x'
    case Integer(Binary) => if upper then 'B' else 'b'
    case Integer(PointerValue) => 'p'
  }

  function ShowFlags(left: bool, zero: bool, prepend: string): string {
    (if left then "-" else "") + (if zero then "0" else "") + prepend
  }

  function ShowWidth(c: Choice, n: nat): string {
    match c
    case Missing => ""
    case Given => Numeral(n, 10, false)
    case Star => "*"
  }

  function ShowPrecision(c: Choice, n: nat): string {
    match c
    case Missing => if n == 0 then "" else ".-" + Numeral(n, 10, false)
    case Given => "." + Numeral(n, 10, false)
    case Star => ".*"
  }

  function Show(d: Directive): string {
    ShowFlags(d.left, d.zero, d.prepend) + (ShowWidth(d.widthChoice, d.width) + (ShowPrecision(d.precChoice, d.prec) +
      (ShowModifier(d.modifier) + [ShowKind(d.kind, d.upper)])))
  }

  /** Directives that can be written: a width of zero would be a flag, only hexadecimal and
      binary numbers have capitals, and what an argument decides is not given as well. */
  predicate Writable(d: Directive) {
    && d.prepend in {"", "+", " "}
    && (d.widthChoice == Given <==> d.width > 0) && (d.precChoice == Star ==> d.prec == 0)
    && (d.upper ==> d.kind == Integer(HexInt) || d.kind == Integer(Binary))
  }

  /** Text that no flag is taken from. */
  predicate Stops(t: string) { First(t) !in {'-', '0', '+', ' '} }

  /** Characters that neither flags nor a width begin with. */
  predicate Apart(c: char) { !Decimal(c) && c !in {'-', '+', ' ', '*'} }

  lemma FlagsRead(left: bool, zero: bool, prepend: string, t: string)
    requires prepend in {"", "+", " "} && Stops(t)
    ensures TakeFlags(ShowFlags(left, zero, prepend) + t, Flags(false, false, "")) == (Flags(left, zero, prepend), t)
  {
    var s0 := prepend + t;
    var s1 := (if zero then "0" else "") + s0;
    var s2 := (if left then "-" else "") + s1;
    assert ShowFlags(left, zero, prepend) + t == s2;
    assert prepend == "" ==> s0 == t;
    assert prepend != "" ==> Rest(s0) == t;
    assert TakeFlags(t, Flags(left, zero, prepend)) == (Flags(left, zero, prepend), t);
    assert TakeFlags(s0, Flags(left, zero, "")) == (Flags(left, zero, prepend), t);
    assert if zero then Rest(s1) == s0 else s1 == s0;
    assert TakeFlags(s1, Flags(left, false, "")) == TakeFlags(s0, Flags(left, zero, ""));
    assert if left then Rest(s2) == s1 else s2 == s1;
  }

  /** A decimal numeral is read as its number, after what has been read before. */
  lemma {:induction false} DigitsRead(s: string, t: string, acc: nat)
    requires (forall i :: 0 <= i < |s| ==> Decimal(s[i])) && !Decimal(First(t))
    ensures TakeDigits(s + t, acc) == (acc * Power(10, |s|) + ReadDigits(s, 10), t)
    decreases |s|
  {
    if s == [] {
      assert s + t == t;
    } else {
      assert Rest(s + t) == s[1..] + t;
      DigitsRead(s[1..], t, acc * 10 + (s[0] - '0') as nat);
      FirstDigit(s);
      Shifted(acc, (s[0] - '0') as nat, Power(10, |s| - 1));
    }
  }

  lemma Shifted(acc: nat, d: nat, p: nat)
    ensures (acc * 10 + d) * p == acc * (10 * p) + d * p
  {
  }

  /** Reading from the first digit on is reading from the last. */
  lemma {:induction false} FirstDigit(s: string)
    requires s != [] && Decimal(s[0])
    ensures ReadDigits(s, 10) == ((s[0] - '0') as nat) * Power(10, |s| - 1) + ReadDigits(s[1..], 10)
    decreases |s|
  {
    var n := |s| - 1;
    if n == 0 {
      assert s[..0] == [] && s[1..] == [];
    } else {
      FirstDigit(s[..n]);
      assert s[..n][1..] == s[1..][..n - 1];
      assert s[1..][n - 1] == s[n];
      Shifted2((s[0] - '0') as nat, Power(10, n - 1), ReadDigits(s[1..][..n - 1], 10), DigitValue(s[n]));
    }
  }

  lemma Shifted2(d: nat, p: nat, r: nat, e: nat)
    ensures (d * p + r) * 10 + e == d * (10 * p) + (r * 10 + e)
  {
  }

  lemma {:induction false} DecimalNumeral(n: nat)
    ensures forall i :: 0 <= i < |Numeral(n, 10, false)| ==> Decimal(Numeral(n, 10, false)[i])
    decreases n
  {
    if n >= 10 {
      DecimalNumeral(n / 10);
    }
  }

  lemma NumberRead10(n: nat, t: string)
    requires !Decimal(First(t))
    ensures TakeDigits(Numeral(n, 10, false) + t, 0) == (n, t)
  {
    hide Numeral;
    DecimalNumeral(n);
    DigitsRead(Numeral(n, 10, false), t, 0);
    ReadBack(n, 10, false);
  }

  // ---------------------------------------------------------------- the round trip

  lemma KindRead(k: Kind, upper: bool)
    requires upper ==> k == Integer(HexInt) || k == Integer(Binary)
    ensures KindOf(ShowKind(k, upper)) == Some((k, upper))
    ensures var c := ShowKind(k, upper); Apart(c) && c !in {'.', 'h', 'l', 'j', 'z', 't'}
  {
    match k
    case Percent =>
    case Character =>
    case Text =>
    case Integer(c) =>
      match c
      case SignedInt =>
      case Binary =>
      case Octal =>
      case HexInt =>
      case UnsignedInt =>
      case PointerValue =>
  }

  lemma ModifierRead(m: Modifier, t: string)
    requires Apart(First(t)) && First(t) !in {'.', 'h', 'l', 'j', 'z', 't'}
    ensures TakeModifier(ShowModifier(m) + t) == (m, t)
    ensures Apart(First(ShowModifier(m) + t)) && First(ShowModifier(m) + t) != '.'
  {
    var s := ShowModifier(m) + t;
    match m
    case Plain =>
      assert s == t;
    case Tiny =>
      assert Rest(s) == "h" + t && Rest(Rest(s)) == t;
    case LongLong =>
      assert Rest(s) == "l" + t && Rest(Rest(s)) == t;
    case _ =>
      assert Rest(s) == t;
  }

  lemma PrecisionRead(c: Choice, n: nat, t: string)
    requires Apart(First(t)) && First(t) != '.' && (c == Star ==> n == 0)
    ensures TakePrecision(ShowPrecision(c, n) + t) == (c, n, t) && Apart(First(ShowPrecision(c, n) + t))
  {
    hide Numeral, TakeDigits, First, Rest, Decimal;
    var s, d := ShowPrecision(c, n) + t, Numeral(n, 10, false);
    NumberRead10(n, t);
    FirstDecimal(n, t);
    match c
    case Missing =>
      if n == 0 {
        assert s == t;
      } else {
        assert s == ['.'] + (['-'] + (d + t));
        Behind('-', d + t);
        Behind('.', ['-'] + (d + t));
      }
    case Given =>
      assert s == ['.'] + (d + t);
      Behind('.', d + t);
    case Star =>
      assert s == ['.'] + (['*'] + t);
      Behind('*', t);
      Behind('.', ['*'] + t);
  }

  lemma Behind(c: char, t: string)
    ensures First([c] + t) == c && Rest([c] + t) == t
  {
  }

  lemma FirstDecimal(n: nat, t: string)
    ensures First(Numeral(n, 10, false) + t) == Numeral(n, 10, false)[0] && Decimal(Numeral(n, 10, false)[0])
    ensures First(Numeral(n, 10, false) + t) !in {'*', '-', '.'} && !Decimal('.')
  {
    hide Numeral;
    DecimalNumeral(n);
  }

  lemma WidthRead(c: Choice, n: nat, t: string)
    requires Apart(First(t)) && (c == Given <==> n > 0)
    ensures TakeWidth(ShowWidth(c, n) + t) == (c, n, t) && Stops(ShowWidth(c, n) + t)
  {
    hide Numeral;
    var s, d := ShowWidth(c, n) + t, Numeral(n, 10, false);
    match c
    case Missing =>
      assert s == t;
    case Given =>
      NumberRead10(n, t);
      DecimalNumeral(n);
      NoLeadingZero(n, 10, false);
      assert First(s) == d[0];
    case Star =>
      assert Rest(s) == t;
  }

  /** Every writable directive is parsed back from its text, whatever follows. */
  lemma RoundTrip(d: Directive, rest: string)
    requires Writable(d)
    ensures Parse(Show(d) + rest) == Some((d, rest))
  {
    hide TakeFlags, TakeWidth, TakePrecision, TakeModifier, KindOf;
    hide ShowFlags, ShowWidth, ShowPrecision, ShowModifier, ShowKind;
    var k := [ShowKind(d.kind, d.upper)] + rest;
    var m := ShowModifier(d.modifier) + k;
    var p := ShowPrecision(d.precChoice, d.prec) + m;
    var w := ShowWidth(d.widthChoice, d.width) + p;
    KindRead(d.kind, d.upper);
    ModifierRead(d.modifier, k);
    PrecisionRead(d.precChoice, d.prec, m);
    WidthRead(d.widthChoice, d.width, p);
    FlagsRead(d.left, d.zero, d.prepend, w);
    assert Show(d) + rest == ShowFlags(d.left, d.zero, d.prepend) + w;
    assert Rest(k) == rest;
  }

  // ---------------------------------------------------------------- the parser's loops

  lemma NoKind()
    ensures KindOf('\0') == None
  {
  }

  method ParseFlags(format: string, start: nat) returns (left: bool, zero: bool, prepend: string, cur: nat)
    requires start <= |format|
    ensures start <= cur <= |format|
    ensures TakeFlags(format[start..], Flags(false, false, "")) == (Flags(left, zero, prepend), format[cur..])
  {
    left, zero, prepend, cur := false, false, "", start;
    ghost var t := format[start..];
    while cur < |format|
      invariant start <= cur <= |format|
      invariant TakeFlags(t, Flags(false, false, "")) == TakeFlags(format[cur..], Flags(left, zero, prepend))
      decreases |format| - cur
    {
      ghost var u := format[cur..];
      assert First(u) == format[cur] && Rest(u) == format[cur + 1..];
      match format[cur] {
        case '-' => left := true;
        case '0' => zero := true;
        case '+' => prepend := "+";
        case ' ' =>
          if prepend == "" {
            prepend := " ";
          }
        case _ => break;
      }
      cur := cur + 1;
    }
  }

  method ParseDigits(format: string, start: nat) returns (n: nat, cur: nat)
    requires start <= |format|
    ensures start <= cur <= |format| && TakeDigits(format[start..], 0) == (n, format[cur..])
  {
    n, cur := 0, start;
    while cur < |format| && Decimal(format[cur])
      invariant start <= cur <= |format| && TakeDigits(format[start..], 0) == TakeDigits(format[cur..], n)
    {
      assert First(format[cur..]) == format[cur] && Rest(format[cur..]) == format[cur + 1..];
      n := n * 10 + (format[cur] - '0') as nat;
      cur := cur + 1;
    }
    assert cur < |format| ==> First(format[cur..]) == format[cur];
  }

  method ParseWidth(format: string, start: nat) returns (c: Choice, n: nat, cur: nat)
    requires start <= |format|
    ensures start <= cur <= |format| && TakeWidth(format[start..]) == (c, n, format[cur..])
  {
    hide TakeDigits;
    assert start < |format| ==> First(format[start..]) == format[start] && Rest(format[start..]) == format[start + 1..];
    if start < |format| && format[start] == '*' {
      return Star, 0, start + 1;
    }
    c := if start < |format| && Decimal(format[start]) then Given else Missing;
    n, cur := ParseDigits(format, start);
  }

  method ParsePrecision(format: string, start: nat) returns (c: Choice, n: nat, cur: nat)
    requires start <= |format|
    ensures start <= cur <= |format| && TakePrecision(format[start..]) == (c, n, format[cur..])
  {
    hide TakeDigits;
    ghost var t := format[start..];
    assert start < |format| ==> First(t) == format[start] && Rest(t) == format[start + 1..];
    if start == |format| || format[start] != '.' {
      return Missing, 0, start;
    }
    cur := start + 1;
    assert cur < |format| ==> First(Rest(t)) == format[cur] && Rest(Rest(t)) == format[cur + 1..];
    if cur < |format| && format[cur] == '*' {
      return Star, 0, cur + 1;
    }
    c := Given;
    if cur < |format| && format[cur] == '-' {
      c := Missing;
      cur := cur + 1;
    }
    n, cur := ParseDigits(format, cur);
  }

  method ParseModifier(format: string, start: nat) returns (m: Modifier, cur: nat)
    requires start <= |format|
    ensures start <= cur <= |format| && TakeModifier(format[start..]) == (m, format[cur..])
  {
    ghost var t := format[start..];
    assert start < |format| ==> First(t) == format[start] && Rest(t) == format[start + 1..];
    m, cur := Plain, start;
    if start < |format| {
      assert start + 1 < |format| ==> First(Rest(t)) == format[start + 1] && Rest(Rest(t)) == format[start + 2..];
      cur := start + 1;
      match format[start]
      case 'h' =>
        m := Short;
        if cur < |format| && format[cur] == 'h' {
          m, cur := Tiny, cur + 1;
        }
      case 'l' =>
        m := Long;
        if cur < |format| && format[cur] == 'l' {
          m, cur := LongLong, cur + 1;
        }
      case 'j' => m := IntMax;
      case 'z' => m := SizeT;
      case 't' => m := PtrDiff;
      case _ => cur := start;
    }
  }

  /** `npf_parse_format_spec`, with `start` at the percent sign. */
  method ParseFormatSpec(format: string, start: nat) returns (r: Option<Directive>, next: nat)
    requires start < |format| && format[start] == '%'
    ensures match Parse(format[start + 1..])
            case None => r.None?
            case Some((d, rest)) => r == Some(d) && start < next <= |format| && format[next..] == rest
  {
    hide TakeFlags, TakeWidth, TakePrecision, TakeModifier, KindOf;
    var left, zero, prepend, cur := ParseFlags(format, start + 1);
    var widthChoice, width, precChoice, prec, modifier;
    widthChoice, width, cur := ParseWidth(format, cur);
    precChoice, prec, cur := ParsePrecision(format, cur);
    modifier, cur := ParseModifier(format, cur);
    assert First(format[cur..]) == if cur < |format| then format[cur] else '\0';
    if cur == |format| {
      NoKind();
      return None, 0;
    }
    assert Rest(format[cur..]) == format[cur + 1..];
    match KindOf(format[cur])
    case None => return None, 0;
    case Some((kind, upper)) =>
      return Some(Directive(left, zero, prepend, widthChoice, width, precChoice, prec, modifier, upper, kind)), cur + 1;
  }

  // ---------------------------------------------------------------- arguments

  /** An argument: a number, as wide as it was passed, or a string. */
  datatype Arg = Num(v: int) | Str(text: string)

  /** How many values the argument's type has. */
  function TypeRange(c: Conversion, m: Modifier): nat {
    if c == PointerValue then UINT_LIMIT
    else
      match m
      case Plain => 0x1_0000_0000
      case Short => 0x1_0000
      case Tiny => 0x100
      case _ => UINT_LIMIT
  }

  /** The argument, converted to the type the directive names. */
  function Cast(c: Conversion, m: Modifier, v: int): (r: int)
    ensures InRange(c, r) && (r - v) % TypeRange(c, m) == 0
  {
    var range := TypeRange(c, m);
    var u := v % range;
    Wraps(v, range);
    if c == SignedInt && u >= range / 2 then u - range else u
  }

  lemma Wraps(v: int, range: nat)
    requires range in {0x100, 0x1_0000, 0x1_0000_0000, UINT_LIMIT}
    ensures (v % range - v) % range == 0 && (v % range - range - v) % range == 0
  {
    var q := v / range;
    assert v % range - v == range * (-q) && v % range - range - v == range * (-q - 1);
    WholeMultiple(-q, range);
    WholeMultiple(-q - 1, range);
  }

  lemma WholeMultiple(q: int, m: nat)
    requires m in {0x100, 0x1_0000, 0x1_0000_0000, UINT_LIMIT}
    ensures m * q % m == 0
  {
  }

  const INT_LIMIT: int := 0x8000_0000

  /** A width that an argument decides; a negative one justifies to the left. */
  function StarWidth(d: Directive, args: seq<Arg>): Option<(Directive, seq<Arg>)> {
    if d.widthChoice != Star then Some((d, args))
    else if args == [] || !args[0].Num? || !(-INT_LIMIT < args[0].v < INT_LIMIT) then None
    else if args[0].v < 0 then Some((d.(width := -args[0].v, left := true), args[1..]))
    else Some((d.(width := args[0].v), args[1..]))
  }

  /** A precision that an argument decides; a negative one is none. */
  function StarPrecision(d: Directive, args: seq<Arg>): Option<(Directive, seq<Arg>)> {
    if d.precChoice != Star then Some((d, args))
    else if args == [] || !args[0].Num? || !(-INT_LIMIT <= args[0].v < INT_LIMIT) then None
    else if args[0].v < 0 then Some((d.(prec := 0, precChoice := Missing), args[1..]))
    else Some((d.(prec := args[0].v), args[1..]))
  }

  function SpecOf(d: Directive, c: Conversion): Spec {
    Spec(c, d.upper, d.left, d.zero, d.prepend, d.widthChoice != Missing, d.width, d.precChoice != Missing, d.prec)
  }

  function TextSpecOf(d: Directive): TextSpec {
    TextSpec(d.left, d.zero, d.widthChoice != Missing, d.width, d.precChoice != Missing, d.prec)
  }

  /** What one directive prints once width and precision are known. */
  function Formatted(d: Directive, args: seq<Arg>): Option<(string, seq<Arg>)> {
    if d.kind == Percent then Some((CharField(TextSpecOf(d), '%'), args))
    else if args == [] || (d.kind == Text <==> args[0].Num?) then None
    else
      var field := match d.kind
        case Percent => []
        case Character => CharField(TextSpecOf(d), (args[0].v % 256) as char)
        case Text => TextField(TextSpecOf(d), args[0].text)
        case Integer(c) => Field(SpecOf(d, c), Cast(c, d.modifier, args[0].v));
      Some((field, args[1..]))
  }

  function Directed(d: Directive, args: seq<Arg>): Option<(string, seq<Arg>)> {
    match StarWidth(d, args)
    case None => None
    case Some((d1, args1)) =>
      match StarPrecision(d1, args1)
      case None => None
      case Some((d2, args2)) => Formatted(d2, args2)
  }

  /** What a format prints for its arguments; nothing is promised when they do not match it. */
  function Output(format: string, args: seq<Arg>): Option<string>
    decreases |format|
  {
    if format == [] then Some([])
    else if format[0] == '%' && Parse(format[1..]).Some? then
      var (d, rest) := Parse(format[1..]).value;
      match Directed(d, args)
      case None => None
      case Some((s, args')) =>
        match Output(rest, args')
        case None => None
        case Some(t) => Some(s + t)
    else
      match Output(format[1..], args)
      case None => None
      case Some(t) => Some([format[0]] + t)
  }

  /** A minus sign before the digits of a precision: the directive is parsed with that number
      but without a precision, and the number still pads exactly when it is longer than the
      digits and not absorbed by zeros of the width. */
  lemma MinusPrecision(d: Directive, c: Conversion, v: int, rest: string)
    requires Writable(d) && d.kind == Integer(c) && c != PointerValue && d.precChoice == Missing && InRange(c, v)
    ensures Parse(Show(d) + rest) == Some((d, rest))
    ensures var f := SpecOf(d, c);
            Field(f, v) == Field(SpecOf(d.(prec := 0), c), v) <==> d.prec <= |DigitsOf(f, v)| || Absorbed(f, v)
  {
    RoundTrip(d, rest);
    UnwantedPrecision(SpecOf(d, c), v);
  }

  /** The same for `%c` and `%%`. */
  lemma MinusPrecisionChar(d: Directive, c: char, rest: string)
    requires Writable(d) && (d.kind == Character || d.kind == Percent) && d.precChoice == Missing
    ensures Parse(Show(d) + rest) == Some((d, rest))
    ensures var f := TextSpecOf(d);
            CharField(f, c) == CharField(TextSpecOf(d.(prec := 0)), c) <==>
            d.prec <= 1 || (d.zero && !d.left && f.hasWidth && d.width >= d.prec)
  {
    hide Show, Parse, CharField, Writable;
    RoundTrip(d, rest);
    CharPrecision(TextSpecOf(d), c);
  }

  // ---------------------------------------------------------------- the printing loop

  /** Width and precision from the arguments, and the conversion. */
  method PutDirective(sink: Sink, d0: Directive, args: seq<Arg>, start: nat) returns (next: nat)
    requires sink.Valid() && start <= |args| && Directed(d0, args[start..]).Some?
    modifies sink, sink.dst
    ensures start <= next <= |args|
    ensures sink.Valid() && Directed(d0, args[start..]).value.1 == args[next..]
    ensures sink.out == old(sink.out) + Directed(d0, args[start..]).value.0
  {
    hide Formatted;
    var d := d0;
    next := start;
    if d.widthChoice == Star {
      var w := args[next].v;
      d := if w < 0 then d.(width := -w, left := true) else d.(width := w);
      next := next + 1;
      assert args[start..][1..] == args[next..];
    }
    assert StarWidth(d0, args[start..]) == Some((d, args[next..]));
    if d.precChoice == Star {
      var p := args[next].v;
      ghost var rest := args[next..];
      d := if p < 0 then d.(prec := 0, precChoice := Missing) else d.(prec := p);
      next := next + 1;
      assert rest[1..] == args[next..];
    }
    next := PutKind(sink, d, args, next);
  }

  method PutKind(sink: Sink, d: Directive, args: seq<Arg>, start: nat) returns (next: nat)
    requires sink.Valid() && start <= |args| && Formatted(d, args[start..]).Some?
    modifies sink, sink.dst
    ensures start <= next <= |args|
    ensures sink.Valid() && Formatted(d, args[start..]).value.1 == args[next..]
    ensures sink.out == old(sink.out) + Formatted(d, args[start..]).value.0
  {
    hide Field, TextField, CharField;
    if d.kind == Percent {
      PutChar(sink, TextSpecOf(d), '%');
      return start;
    }
    next := start + 1;
    assert args[start..][1..] == args[next..];
    match d.kind
    case Character => PutChar(sink, TextSpecOf(d), (args[start].v % 256) as char);
    case Text => PutText(sink, TextSpecOf(d), args[start].text);
    case Integer(c) => PutInteger(sink, SpecOf(d, c), Cast(c, d.modifier, args[start].v));
  }

  /** `npf_vpprintf` */
  method Vpprintf(sink: Sink, format: string, args: seq<Arg>) returns (n: nat)
    requires sink.Valid() && sink.out == [] && Output(format, args).Some?
    modifies sink, sink.dst
    ensures sink.Valid() && sink.out == Output(format, args).value && n == |sink.out|
  {
    hide Parse, Directed;
    var cur, next: nat := 0, 0;
    assert format[0..] == format && args[0..] == args;
    while cur < |format|
      invariant sink.Valid() && cur <= |format| && next <= |args| && Output(format[cur..], args[next..]).Some?
      invariant sink.out + Output(format[cur..], args[next..]).value == Output(format, args).value
      decreases |format| - cur
    {
      ghost var out0, rest := sink.out, Output(format[cur..], args[next..]).value;
      assert format[cur..][0] == format[cur] && format[cur..][1..] == format[cur + 1..];
      var d: Option<Directive>, behind: nat := None, 0;
      if format[cur] == '%' {
        d, behind := ParseFormatSpec(format, cur);
      }
      match d {
        case None =>
          sink.Put(format[cur]);
          cur := cur + 1;
          Moved(out0, [format[cur - 1]], Output(format[cur..], args[next..]).value, rest);
        case Some(directive) =>
          ghost var s := Directed(directive, args[next..]).value.0;
          next := PutDirective(sink, directive, args, next);
          cur := behind;
          Moved(out0, s, Output(format[cur..], args[next..]).value, rest);
      }
    }
    return sink.count;
  }

  lemma Moved(out: string, s: string, left: string, rest: string)
    requires rest == s + left
    ensures (out + s) + left == out + rest
  {
  }

  /** `npf_vsnprintf`: the count is that of the whole text, and a buffer gets as much of it as
      fits before the terminator. */
  method Vsnprintf(buffer: array?<char>, format: string, args: seq<Arg>) returns (n: nat)
    requires Output(format, args).Some?
    modifies if buffer == null then {} else {buffer}
    ensures n == |Output(format, args).value|
    ensures buffer != null && buffer.Length > 0 ==>
      var k := if n < buffer.Length then n else buffer.Length - 1;
      buffer[..k] == Output(format, args).value[..k] && buffer[k] == '\0'
  {
    if buffer == null {
      var nowhere := new char[0];
      var sink := new Sink(nowhere);
      n := Vpprintf(sink, format, args);
    } else {
      var sink := new Sink(buffer);
      n := Vpprintf(sink, format, args);
      if buffer.Length > 0 {
        var k := if n < buffer.Length then n else buffer.Length - 1;
        assert buffer[..k] == buffer[..sink.cur][..k];
        buffer[k] := '\0';
      }
    }
  }
}
