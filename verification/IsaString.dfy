/** Splitting the RISC-V ISA string into its base and its extensions, packed into one block
    together with the array of pointers to them. */
module IsaString {
  import opened Allocation

  const ADDRESS_SIZE: nat := 8

  // ---------------------------------------------------------------- the parts of a string

  /** The end of the base: the first underscore that is not the first character, or else 0. */
  function BaseLength(isa: string): (n: nat)
    ensures n <= |isa|
  {
    FirstFrom(isa, 1)
  }

  function FirstFrom(isa: string, i: nat): (n: nat)
    ensures n <= |isa| && (n > 0 ==> i <= n < |isa| && isa[n] == '_')
    ensures forall j :: i <= j < |isa| && (n == 0 || j < n) && i > 0 ==> isa[j] != '_'
    decreases |isa| - i
  {
    if i >= |isa| then 0 else if isa[i] == '_' then i else FirstFrom(isa, i + 1)
  }

  function Underscores(s: string): (n: nat)
    ensures n <= |s|
  {
    if s == [] then 0 else Underscores(s[..|s| - 1]) + if s[|s| - 1] == '_' then 1 else 0
  }

  /** The end of the part `s` starts with. */
  function PartEnd(s: string): (e: nat)
    ensures e <= |s| && (e < |s| ==> s[e] == '_') && forall i :: 0 <= i < e ==> s[i] != '_'
  {
    if s == [] || s[0] == '_' then 0 else 1 + PartEnd(s[1..])
  }

  /** What follows the first part and its underscore. */
  function Tail(s: string): (t: string)
    requires s != []
    ensures |t| < |s|
  {
    if PartEnd(s) < |s| then s[PartEnd(s) + 1..] else []
  }

  /** The parts between underscores; nothing comes after a last underscore. */
  function Split(s: string): seq<string>
    decreases |s|
  {
    if s == [] then [] else [s[..PartEnd(s)]] + Split(Tail(s))
  }

  function Join(parts: seq<string>): string {
    if parts == [] then [] else parts[0] + (if |parts| == 1 then [] else "_" + Join(parts[1..]))
  }

  function WithoutLast(s: string): string { if s != [] && s[|s| - 1] == '_' then s[..|s| - 1] else s }

  lemma JoinFirst(part: string, parts: seq<string>)
    ensures Join([part] + parts) == part + if parts == [] then [] else "_" + Join(parts)
  {
    assert ([part] + parts)[1..] == parts;
  }

  lemma WithoutLastOf(part: string, rest: string)
    ensures WithoutLast(part + "_" + rest) == part + if rest == [] then [] else "_" + WithoutLast(rest)
  {
    var s := part + "_" + rest;
    if rest == [] {
      assert s[..|s| - 1] == part;
    } else {
      assert s[|s| - 1] == rest[|rest| - 1];
      assert s[..|s| - 1] == part + "_" + rest[..|rest| - 1];
    }
  }

  lemma SplitNothing(s: string)
    ensures Split(s) == [] <==> s == []
  {
  }

  /** Joining the parts gives the string back, up to one underscore at its end. */
  lemma {:induction false} JoinSplit(s: string)
    ensures Join(Split(s)) == WithoutLast(s)
    decreases |s|
  {
    hide WithoutLast, Join, PartEnd;
    if s == [] {
      NothingJoined();
    } else {
      var e := PartEnd(s);
      JoinSplit(Tail(s));
      JoinFirst(s[..e], Split(Tail(s)));
      SplitNothing(Tail(s));
      if e < |s| {
        WithoutLastOf(s[..e], s[e + 1..]);
        assert s == s[..e] + "_" + s[e + 1..];
      } else {
        WithoutLastWhole(s);
      }
    }
  }

  lemma NothingJoined()
    ensures Join([]) == [] && WithoutLast([]) == []
  {
  }

  lemma WithoutLastWhole(s: string)
    requires s != [] && PartEnd(s) == |s|
    ensures WithoutLast(s) == s
  {
    assert s[|s| - 1] != '_';
  }

  /** The extensions: what follows the base and one more character. */
  function Extensions(isa: string): seq<string> {
    if BaseLength(isa) < |isa| then Split(isa[BaseLength(isa) + 1..]) else []
  }

  /** Base and extensions, joined by underscores. */
  function Rejoined(isa: string): string { Join([isa[..BaseLength(isa)]] + Extensions(isa)) }

  lemma RejoinedIs(isa: string)
    requires |isa| > 0
    ensures var n := BaseLength(isa);
            n < |isa| && Rejoined(isa) ==
            isa[..n] + if isa[n + 1..] == [] then [] else "_" + WithoutLast(isa[n + 1..])
  {
    hide WithoutLast, Join, Split;
    var n := BaseLength(isa);
    JoinSplit(isa[n + 1..]);
    JoinFirst(isa[..n], Extensions(isa));
    SplitNothing(isa[n + 1..]);
  }

  /** With an underscore where the base ends, base and extensions joined are the string again. */
  lemma JoinsBack(isa: string)
    requires |isa| > 0 && (BaseLength(isa) > 0 || isa[0] == '_')
    ensures Rejoined(isa) == WithoutLast(isa)
  {
    hide Rejoined, WithoutLast;
    RejoinedIs(isa);
    var n := BaseLength(isa);
    WithoutLastOf(isa[..n], isa[n + 1..]);
    assert isa == isa[..n] + "_" + isa[n + 1..];
  }

  lemma DoesNotJoinBack(isa: string)
    requires |isa| > 0 && BaseLength(isa) == 0 && isa[0] != '_'
    ensures Rejoined(isa) != WithoutLast(isa)
  {
    hide Rejoined;
    RejoinedIs(isa);
    assert isa[|isa| - 1] != '_';
    assert WithoutLast(isa) == isa;
    assert Rejoined(isa) == [] || Rejoined(isa)[0] == '_';
  }

  /** Base and extensions joined are the string again, up to one underscore at its end, exactly
      when it has an underscore behind its first character or begins with one. */
  lemma RoundTripExact(isa: string)
    requires |isa| > 0
    ensures Rejoined(isa) == WithoutLast(isa) <==> BaseLength(isa) > 0 || isa[0] == '_'
  {
    hide Rejoined, WithoutLast, BaseLength;
    if BaseLength(isa) > 0 || isa[0] == '_' {
      JoinsBack(isa);
    } else {
      DoesNotJoinBack(isa);
    }
  }

  /** Otherwise there is no underscore at all: the base is empty, and the first character is
      lost. */
  lemma NoUnderscore(isa: string)
    requires |isa| > 0 && BaseLength(isa) == 0 && isa[0] != '_'
    ensures (forall i :: 0 <= i < |isa| ==> isa[i] != '_')
    ensures Extensions(isa) == if |isa| == 1 then [] else [isa[1..]]
  {
    var rest := isa[1..];
    assert PartEnd(rest) == |rest|;
    if rest != [] {
      SplitNothing(Tail(rest));
      assert rest[..|rest|] == rest;
    }
  }

  // ---------------------------------------------------------------- how much room they take

  /** Bytes of the parts, each with its terminator. */
  function Packed(parts: seq<string>): nat { if parts == [] then 0 else |parts[0]| + 1 + Packed(parts[1..]) }

  lemma PackedFirst(part: string, parts: seq<string>)
    ensures Packed([part] + parts) == |part| + 1 + Packed(parts)
  {
    assert ([part] + parts)[1..] == parts;
  }

  lemma PackedNothing()
    ensures Packed([]) == 0
  {
  }

  /** How a string ends is how any end of it ends, and no part ends with an underscore. */
  lemma OpenTail(s: string, i: nat)
    requires i <= |s|
    ensures i < |s| ==> EndsOpen(s[i..]) == EndsOpen(s)
    ensures i == |s| > 0 && s[i - 1] == '_' ==> EndsOpen(s)
    ensures s != [] && PartEnd(s) == |s| ==> !EndsOpen(s)
    ensures !EndsOpen([])
  {
  }

  predicate EndsOpen(s: string) { s != [] && s[|s| - 1] == '_' }

  /** The parts need the string's bytes and one terminator, unless an underscore at the end
      makes room for that. */
  lemma {:induction false} PackedLength(s: string)
    ensures Packed(Split(s)) == if s == [] then 0 else |s| + if EndsOpen(s) then 0 else 1
    decreases |s|
  {
    hide PartEnd, Packed, EndsOpen;
    PackedNothing();
    if s != [] {
      var e := PartEnd(s);
      PackedLength(Tail(s));
      PackedFirst(s[..e], Split(Tail(s)));
      OpenTail(s, if e < |s| then e + 1 else e);
    }
  }

  lemma {:induction false} UnderscoresSplit(s: string, i: nat)
    requires i <= |s|
    ensures Underscores(s) == Underscores(s[..i]) + Underscores(s[i..])
    decreases |s| - i
  {
    if i == |s| {
      assert s[..i] == s && s[i..] == [];
    } else {
      UnderscoresSplit(s[..|s| - 1], i);
      assert s[..|s| - 1][..i] == s[..i] && s[..|s| - 1][i..] == s[i..][..|s[i..]| - 1];
    }
  }

  lemma UnderscoreCounts(s: string)
    requires s != [] && s[|s| - 1] == '_'
    ensures Underscores(s) >= 1
  {
  }

  /** There are at most as many parts as underscores, and one more. */
  lemma {:induction false} PartsCounted(s: string)
    ensures |Split(s)| <= Underscores(s) + 1
    decreases |s|
  {
    hide Underscores, PartEnd;
    if s != [] {
      var e := PartEnd(s);
      PartsCounted(Tail(s));
      if e < |s| {
        UnderscoresSplit(s, e + 1);
        UnderscoreCounts(s[..e + 1]);
      } else {
        SplitNothing(Tail(s));
      }
    }
  }

  /** The extensions' pointers: one for every underscore, and one more. */
  function Pointers(isa: string): nat { Underscores(isa) + 1 }

  /** Where the pointers begin, behind the base and its terminator. */
  function PointersAt(isa: string): nat { Ceil(BaseLength(isa) + 1, ADDRESS_SIZE) }

  /** Bytes that are used in the block. */
  function Used(isa: string): nat { PointersAt(isa) + Pointers(isa) * ADDRESS_SIZE + Packed(Extensions(isa)) }

  /** Bytes that are asked for, and the block they get. */
  function Asked(isa: string): nat { |isa| + 1 + Pointers(isa) * ADDRESS_SIZE }

  function Granted(isa: string): nat { Ceil(Asked(isa), PAGE) }

  /** Bytes the base leaves unused in front of the pointers. */
  function Padding(isa: string): nat {
    CeilLeast(BaseLength(isa) + 1, ADDRESS_SIZE);
    PointersAt(isa) - (BaseLength(isa) + 1)
  }

  /** Nothing follows the base but its underscore, or the string ends with an underscore. */
  predicate LastPartEmpty(isa: string) { BaseLength(isa) + 1 == |isa| || EndsOpen(isa) }

  /** The rounding of the block to whole pages takes up what the sum does not count. */
  predicate Roomy(isa: string) {
    Asked(isa) + Padding(isa) + (if LastPartEmpty(isa) then 0 else 1) <= Granted(isa) + 1
  }

  lemma BaseInside(isa: string)
    requires |isa| > 0
    ensures BaseLength(isa) < |isa|
  {
  }

  /** What is used is what is asked for and the padding, less the terminator that the base and
      its underscore share, and with one for a last part that is there. */
  lemma UsedExact(isa: string)
    requires |isa| > 0
    ensures Used(isa) + 1 == Asked(isa) + Padding(isa) + if LastPartEmpty(isa) then 0 else 1
    ensures Used(isa) <= Granted(isa) <==> Roomy(isa)
  {
    hide BaseLength, Underscores, Split, Packed, EndsOpen, Ceil;
    var n := BaseLength(isa);
    BaseInside(isa);
    PackedLength(isa[n + 1..]);
    OpenTail(isa, n + 1);
    CeilLeast(n + 1, ADDRESS_SIZE);
  }

  lemma {:induction false} NoneIn(s: string)
    requires forall i :: 0 <= i < |s| ==> s[i] != '_'
    ensures Underscores(s) == 0
  {
    if s != [] {
      NoneIn(s[..|s| - 1]);
    }
  }

  /** A string with its only underscore at index 1. */
  predicate OneLetterBase(isa: string) {
    |isa| > 2 && isa[0] != '_' && isa[1] == '_' && forall i :: 2 <= i < |isa| ==> isa[i] != '_'
  }

  lemma OneLetterParts(isa: string)
    requires OneLetterBase(isa)
    ensures BaseLength(isa) == 1 && Underscores(isa) == 1 && !LastPartEmpty(isa)
  {
    hide Underscores;
    NoneIn(isa[2..]);
    NoneIn(isa[..1]);
    UnderscoresSplit(isa, 2);
    OneUnderscore(isa[..2]);
  }

  lemma OneUnderscore(s: string)
    requires |s| == 2 && s[0] != '_' && s[1] == '_'
    ensures Underscores(s) == 1
  {
    NoneIn(s[..1]);
  }

  /** The block is too small for such a string exactly when what is asked for lies less than
      six bytes below a whole number of pages. */
  lemma OneLetterOverruns(isa: string)
    requires OneLetterBase(isa)
    ensures Roomy(isa) <==> Asked(isa) + 6 <= Granted(isa)
    ensures |isa| == 4079 ==> Granted(isa) == 4096 && Used(isa) == 4102 && !Roomy(isa)
  {
    hide BaseLength, Underscores, Extensions, LastPartEmpty;
    OneLetterParts(isa);
    UsedExact(isa);
    assert Padding(isa) == 6;
  }

  // ---------------------------------------------------------------- the splitter

  /** A terminated string at an offset of the block. */
  ghost predicate StringAt(block: seq<char>, at: nat, s: string) {
    at + |s| < |block| && block[at..at + |s|] == s && block[at + |s|] == '\0'
  }

  /** A string is copied and terminated. */
  method Store(block: array<char>, at: nat, s: string)
    requires at + |s| < block.Length
    modifies block
    ensures StringAt(block[..], at, s)
    ensures block[..at] == old(block[..at]) && block[at + |s| + 1..] == old(block[at + |s| + 1..])
  {
    for i := 0 to |s|
      invariant block[..at] == old(block[..at]) && block[at + |s| + 1..] == old(block[at + |s| + 1..])
      invariant block[at..at + i] == s[..i]
    {
      block[at + i] := s[i];
    }
    block[at + |s|] := '\0';
  }

  /** The first pass: the length of the base and the number of underscores. */
  method Measure(isa: string) returns (baseLength: nat, underscores: nat)
    ensures baseLength == BaseLength(isa) && underscores == Underscores(isa)
  {
    baseLength, underscores := 0, 0;
    for i := 0 to |isa|
      invariant underscores == Underscores(isa[..i])
      invariant baseLength == 0 || 0 < baseLength < i
      invariant if baseLength == 0 then forall j :: 0 < j < i ==>
          isa[j] != '_' else isa[baseLength] == '_' && forall j :: 0 < j < baseLength ==> isa[j] != '_'
    {
      assert isa[..i + 1][..i] == isa[..i];
      if isa[i] == '_' {
        underscores := underscores + 1;
      }
      if isa[i] == '_' && baseLength == 0 {
        baseLength := i;
      }
    }
    assert isa[..|isa|] == isa;
  }

  /** The extensions stored so far, and the place behind them. */
  ghost predicate Stored(block: seq<char>, pointers: seq<nat>, parts: seq<string>, from: nat, cursor: nat) {
    && |parts| <= |pointers| && from <= cursor <= |block|
    && forall i :: 0 <= i < |parts| ==>
        from <= pointers[i] && pointers[i] + |parts[i]| < cursor && StringAt(block, pointers[i], parts[i])
  }

  lemma StoredNext(block: seq<char>, pointers: seq<nat>, parts: seq<string>, from: nat, cursor: nat, part: string,
      block': seq<char>, pointers': seq<nat>)
    requires Stored(block, pointers, parts, from, cursor) && |block'| == |block| && block'[..cursor] == block[..cursor]
    requires StringAt(block', cursor, part) && |parts| < |pointers| == |pointers'|
    requires pointers' == pointers[|parts| := cursor]
    ensures Stored(block', pointers', parts + [part], from, cursor + |part| + 1)
  {
    var all := parts + [part];
    forall i | 0 <= i < |all|
      ensures from <= pointers'[i] && pointers'[i] + |all[i]| < cursor + |part| + 1
      ensures StringAt(block', pointers'[i], all[i])
    {
      if i < |parts| {
        StringKept(block, block', cursor, pointers[i], parts[i]);
      }
    }
  }

  /** A string below the cursor stays. */
  lemma StringKept(block: seq<char>, block': seq<char>, cursor: nat, at: nat, s: string)
    requires |block'| == |block| && cursor <= |block| && block'[..cursor] == block[..cursor]
    requires StringAt(block, at, s) && at + |s| < cursor
    ensures StringAt(block', at, s)
  {
    forall k | 0 <= k < cursor ensures block'[k] == block[k] {
      assert block'[..cursor][k] == block[..cursor][k];
    }
  }

  /** The second pass: one extension after the other is stored from `start` on. */
  method StoreParts(isa: string, first: nat, block: array<char>, pointers: array<nat>, start: nat) returns (count: nat)
    requires first <= |isa| && |Split(isa[first..])| <= pointers.Length
    requires start + Packed(Split(isa[first..])) <= block.Length
    modifies block, pointers
    ensures count == |Split(isa[first..])|
    ensures Stored(block[..], pointers[..], Split(isa[first..]), start, start + Packed(Split(isa[first..])))
    ensures block[..start] == old(block[..start])
  {
    hide Split, Packed, PartEnd, Stored, StringAt;
    ghost var whole, parts := Split(isa[first..]), [];
    ghost var total := start + Packed(whole);
    ghost var base := block[..start];
    var p: nat, cursor: nat := first, start;
    count := 0;
    NothingStored(block[..], pointers[..], start);
    SplitNothing([]);
    PackedNothing();
    while p < |isa|
      invariant p <= |isa| && count == |parts| && parts + Split(isa[p..]) == whole
      invariant start <= cursor && cursor + Packed(Split(isa[p..])) == total
      invariant Stored(block[..], pointers[..], parts, start, cursor)
      invariant block[..start] == base
    {
      var end := FindEnd(isa, p);
      NextPart(isa, p, end);
      ghost var block0, pointers0 := block[..], pointers[..];
      pointers[count] := cursor;
      Store(block, cursor, isa[p..end]);
      StoredNext(block0, pointers0, parts, start, cursor, isa[p..end], block[..], pointers[..]);
      assert block[..start] == block[..cursor][..start] == block0[..cursor][..start];
      parts := parts + [isa[p..end]];
      cursor := cursor + (end - p) + 1;
      count := count + 1;
      p := if end == |isa| then end else end + 1;
    }
    assert isa[p..] == [];
    assert parts == whole && cursor == total;
  }

  lemma NothingStored(block: seq<char>, pointers: seq<nat>, start: nat)
    requires start <= |block|
    ensures Stored(block, pointers, [], start, start)
  {
  }

  /** `parse_isa_string`, in a block of as many bytes as it allocates. */
  method ParseIsaString(isa: string) returns (block: array<char>, pointers: array<nat>, count: nat)
    requires |isa| > 0 && Roomy(isa)
    ensures block.Length == Granted(isa) && pointers.Length == Pointers(isa)
    ensures StringAt(block[..], 0, isa[..BaseLength(isa)])
    ensures count == |Extensions(isa)| <= pointers.Length
    ensures Stored(block[..], pointers[..], Extensions(isa), PointersAt(isa) + Pointers(isa) * ADDRESS_SIZE, Used(isa))
  {
    hide Split, Packed, PartEnd, Stored, Roomy, BaseLength, Underscores, Ceil;
    BaseInside(isa);
    UsedExact(isa);
    var baseLength, underscores := Measure(isa);
    var size := Ceil(|isa| + 1 + (underscores + 1) * ADDRESS_SIZE, PAGE);
    block := new char[size];
    var cursor: nat := Ceil(baseLength + 1, ADDRESS_SIZE);
    CeilLeast(baseLength + 1, ADDRESS_SIZE);
    pointers := new nat[underscores + 1];
    cursor := cursor + (underscores + 1) * ADDRESS_SIZE;
    Store(block, 0, isa[..baseLength]);
    ghost var base := block[..cursor];
    EnoughPointers(isa);
    count := StoreParts(isa, baseLength + 1, block, pointers, cursor);
    BaseStays(base, block[..], cursor, isa[..baseLength]);
  }

  lemma BaseStays(base: seq<char>, block: seq<char>, from: nat, s: string)
    requires from <= |block| && block[..from] == base && |s| < from && base[..|s|] == s && base[|s|] == '\0'
    ensures StringAt(block, 0, s)
  {
    assert block[0..|s|] == block[..from][..|s|];
  }

  lemma EnoughPointers(isa: string)
    requires |isa| > 0
    ensures |Extensions(isa)| <= Pointers(isa)
  {
    var n := BaseLength(isa);
    PartsCounted(isa[n + 1..]);
    UnderscoresSplit(isa, n + 1);
  }

  method FindEnd(isa: string, p: nat) returns (end: nat)
    requires p < |isa|
    ensures p <= end <= |isa| && end == p + PartEnd(isa[p..])
  {
    end := p;
    while end < |isa| && isa[end] != '_'
      invariant p <= end <= |isa| && p + PartEnd(isa[p..]) == end + PartEnd(isa[end..])
    {
      assert isa[end..][1..] == isa[end + 1..];
      end := end + 1;
    }
  }

  lemma NextPart(isa: string, p: nat, end: nat)
    requires p < |isa| && end == p + PartEnd(isa[p..])
    ensures var next := if end < |isa| then end + 1 else end;
            && Split(isa[p..]) == [isa[p..end]] + Split(isa[next..])
            && Packed(Split(isa[p..])) == end - p + 1 + Packed(Split(isa[next..]))
  {
    hide PartEnd, Packed;
    var s, next := isa[p..], if end < |isa| then end + 1 else end;
    assert s[..end - p] == isa[p..end];
    assert Tail(s) == isa[next..];
    PackedFirst(isa[p..end], Split(isa[next..]));
  }
}
