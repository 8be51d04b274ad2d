/** Page-table entries of x86-64 as 64-bit words: how the hardware reads them (sections 4.5
    and 4.6 of volume 3A of the Intel Software Developer's Manual) and how they are built. */
module X86Words {
  import opened Options
  import opened Arith
  import opened PageTree
  import opened TableMemory

  const PRESENT: nat := 1
  const RW: nat := 2
  const PS: nat := 128
  const NX: nat := 0x8000_0000_0000_0000

  /** One past the highest physical address an entry of the builder can hold. */
  const FRAME_LIMIT: nat := 0x8_0000_0000_0000

  /** `w |= b` for a single bit */
  function SetBit(w: nat, b: nat): nat
    requires b > 0
  {
    if Bit(w, b) then w else w + b
  }

  /** `w &= ~b` for a single bit */
  function ClearBit(w: nat, b: nat): nat
    requires b > 0
  {
    if Bit(w, b) && w >= b then w - b else w
  }

  /** `w & 0x0007'FFFF'FFFF'F000` */
  function Address4K(w: nat): nat { w / 4096 % 0x80_0000_0000 * 4096 }

  /** `w & 0x0007'FFFF'FFE0'0000` */
  function Address2M(w: nat): nat { w / 0x20_0000 % 0x4000_0000 * 0x20_0000 }

  /** `w & 0x0007'FFFF'C000'0000` */
  function Address1G(w: nat): nat { w / 0x4000_0000 % 0x20_0000 * 0x4000_0000 }

  // ---------------------------------------------------------------- the hardware's reading

  // Weights of bits are written out here, apart from the constants of the builder.

  /** What a processor may lack: execution can be disabled, and pages of 1 GiB exist. */
  datatype Cpu = Cpu(nx: bool, giants: bool)

  /** Bit 1 allows writing, and bit 63 forbids execution. */
  function GrantOf(w: nat): Grant { Grant(true, w / 2 % 2 == 1, w / 0x8000_0000_0000_0000 % 2 == 0) }

  /** How the processor reads an entry of a table at `level`: bit 0 says that there is one;
      bits 51:12 hold the address of a page or a table; bit 7 makes an entry of level 2 or 3
      map a large page, whose address is in bits 51:21 or 51:30, and is reserved above.  A
      processor without it takes bit 63, or bit 7 at level 3, for reserved. */
  function Decode(cpu: Cpu, level: nat, w: nat): Slot {
    if w % 2 == 0 || (!cpu.nx && w / 0x8000_0000_0000_0000 % 2 == 1) then Absent
    else if level <= 1 then Leaf(w / 4096 % 0x100_0000_0000 * 4096, GrantOf(w))
    else if w / 128 % 2 == 0 then Table(w / 4096 % 0x100_0000_0000 * 4096, GrantOf(w))
    else if level == 2 then Leaf(w / 0x20_0000 % 0x8000_0000 * 0x20_0000, GrantOf(w))
    else if level == 3 && cpu.giants then Leaf(w / 0x4000_0000 % 0x40_0000 * 0x4000_0000, GrantOf(w))
    else Absent
  }

  /** The entry at which the processor ends its walk for `x`: the first that maps a page. */
  function Final(memory: map<nat, seq<nat>>, page: nat, level: nat, x: nat): Option<Reading>
    decreases level
  {
    if level == 0 || page !in memory || |memory[page]| != 512 then None
    else
      var w := memory[page][x / PageBytes(level) % 512];
      if w % 2 == 0 then None
      else if level == 1 || w / 128 % 2 == 1 then Some(Reading(level, w))
      else Final(memory, w / 4096 % 0x100_0000_0000 * 4096, level - 1, x)
  }

  /** The walk for `x` ends at a page at one of three levels that is present, holds
      `address`, and has bit 1 for writing, bit 7 above level 1, and bit 63 against execution. */
  predicate Stamped(r: Option<Reading>, x: nat, address: nat, write: bool, nx: bool) {
    && r.Some? && 1 <= r.value.level <= 3
    && var w := r.value.word;
    && w % 2 == 1
    && (w / 2 % 2 == 1 <==> write)
    && (w / 128 % 2 == 1 <==> r.value.level > 1)
    && (w / 0x8000_0000_0000_0000 % 2 == 1 <==> nx)
    && w / 4096 % 0x100_0000_0000 * 4096 + x % PageBytes(r.value.level) == address
  }

  // ---------------------------------------------------------------- the builder's words

  function Word(address: nat, large: bool, rw: bool, nx: bool): nat {
    PRESENT + (if rw then RW else 0) + (if large then PS else 0) + address + (if nx then NX else 0)
  }

  /** The word that stands for a slot of a table at `level`. */
  function Encode(level: nat, s: Slot): nat {
    match s
    case Absent => 0
    case Table(c, g) => Word(c, false, g.write, !g.exec)
    case Leaf(f, g) => Word(f, level > 1, g.write, !g.exec)
  }

  /** Slots the builder writes: readable, with aligned addresses that fit, with leaves at the
      three lowest levels only, and with nothing the processor lacks. */
  predicate Buildable(cpu: Cpu, level: nat, s: Slot) {
    match s
    case Absent => true
    case Table(c, g) => level > 1 && g.read && (g.exec || cpu.nx) && c % 4096 == 0 && c < FRAME_LIMIT
    case Leaf(f, g) =>
      && 1 <= level <= 3 && (level == 3 ==> cpu.giants)
      && g.read && (g.exec || cpu.nx) && f % Span(level) == 0 && f < FRAME_LIMIT
  }

  lemma WordFlags(a: nat, large: bool, rw: bool, nx: bool)
    requires a % 4096 == 0 && a < FRAME_LIMIT
    ensures var w := Word(a, large, rw, nx);
            && w < 0x1_0000_0000_0000_0000 && w % 2 == 1 && (w / 2 % 2 == 1 <==> rw) && (w / 128 % 2 == 1 <==> large)
            && (w / 0x8000_0000_0000_0000 % 2 == 1 <==> nx)
  {
    var w, k, r, l, n := Word(a, large, rw, nx), a / 4096, Flag(rw), Flag(large), Flag(nx);
    assert w == 1 + 2 * r + 128 * l + 4096 * k + 0x8000_0000_0000_0000 * n;
    ModUnique(w, 2, r + 64 * l + 2048 * k + 0x4000_0000_0000_0000 * n, 1);
    ModUnique(r + 64 * l + 2048 * k + 0x4000_0000_0000_0000 * n, 2, 32 * l + 1024 * k + 0x2000_0000_0000_0000 * n, r);
    ModUnique(w, 128, l + 32 * k + 0x100_0000_0000_0000 * n, 1 + 2 * r);
    ModUnique(l + 32 * k + 0x100_0000_0000_0000 * n, 2, 16 * k + 0x80_0000_0000_0000 * n, l);
    ModUnique(w, 0x8000_0000_0000_0000, n, 1 + 2 * r + 128 * l + 4096 * k);
  }

  lemma WordAddress(a: nat, large: bool, rw: bool, nx: bool)
    requires a % 4096 == 0 && a < FRAME_LIMIT
    ensures var w := Word(a, large, rw, nx);
            w / 4096 % 0x100_0000_0000 * 4096 == a && Address4K(w) == a
  {
    var w, k, r, l, n := Word(a, large, rw, nx), a / 4096, Flag(rw), Flag(large), Flag(nx);
    assert w == 1 + 2 * r + 128 * l + 4096 * k + 0x8000_0000_0000_0000 * n;
    ModUnique(w, 4096, k + 0x8_0000_0000_0000 * n, 1 + 2 * r + 128 * l);
    ModUnique(k + 0x8_0000_0000_0000 * n, 0x100_0000_0000, 0x800 * n, k);
    ModUnique(k + 0x8_0000_0000_0000 * n, 0x80_0000_0000, 0x1000 * n, k);
  }

  lemma WordLarge2M(a: nat, rw: bool, nx: bool)
    requires a % 0x20_0000 == 0 && a < FRAME_LIMIT
    ensures Word(a, true, rw, nx) / 0x20_0000 % 0x8000_0000 * 0x20_0000 == a
  {
    var w, k, r, n := Word(a, true, rw, nx), a / 0x20_0000, Flag(rw), Flag(nx);
    assert w == 129 + 2 * r + 0x20_0000 * k + 0x8000_0000_0000_0000 * n;
    ModUnique(w, 0x20_0000, k + 0x400_0000_0000 * n, 129 + 2 * r);
    ModUnique(k + 0x400_0000_0000 * n, 0x8000_0000, 0x800 * n, k);
  }

  lemma WordLarge1G(a: nat, rw: bool, nx: bool)
    requires a % 0x4000_0000 == 0 && a < FRAME_LIMIT
    ensures Word(a, true, rw, nx) / 0x4000_0000 % 0x40_0000 * 0x4000_0000 == a
  {
    var w, k, r, n := Word(a, true, rw, nx), a / 0x4000_0000, Flag(rw), Flag(nx);
    assert w == 129 + 2 * r + 0x4000_0000 * k + 0x8000_0000_0000_0000 * n;
    ModUnique(w, 0x4000_0000, k + 0x2_0000_0000 * n, 129 + 2 * r);
    ModUnique(k + 0x2_0000_0000 * n, 0x40_0000, 0x800 * n, k);
  }

  lemma SpanPages(a: nat)
    ensures a % 0x20_0000 == 0 ==> a % 4096 == 0
    ensures a % 0x4000_0000 == 0 ==> a % 4096 == 0
  {
    ModDiv(a, 4096, 512);
    ModDiv(a, 4096, 0x4_0000);
  }

  /** The hardware reads a built word as the slot it was built for. */
  lemma DecodeEncode(cpu: Cpu, level: nat, s: Slot)
    requires Buildable(cpu, level, s)
    ensures Decode(cpu, level, Encode(level, s)) == s
  {
    match s
    case Absent =>
    case Table(c, g) =>
      WordFlags(c, false, g.write, !g.exec);
      WordAddress(c, false, g.write, !g.exec);
    case Leaf(f, g) =>
      SpanValues();
      SpanPages(f);
      WordFlags(f, level > 1, g.write, !g.exec);
      if level == 1 {
        WordAddress(f, false, g.write, !g.exec);
      } else if level == 2 {
        WordLarge2M(f, g.write, !g.exec);
      } else {
        WordLarge1G(f, g.write, !g.exec);
      }
  }

  /** Masking an aligned address only drops what no entry can hold. */
  lemma MaskIs(a: nat)
    ensures a % 4096 == 0 ==> Address4K(a) == a % FRAME_LIMIT
    ensures a % 0x20_0000 == 0 ==> Address2M(a) == a % FRAME_LIMIT
    ensures a % 0x4000_0000 == 0 ==> Address1G(a) == a % FRAME_LIMIT
  {
    ModDiv(a, 4096, 0x80_0000_0000);
    ModDiv(a, 0x20_0000, 0x4000_0000);
    ModDiv(a, 0x4000_0000, 0x20_0000);
  }

  /** Setting and clearing the flag bits of a built word gives the word with that flag. */
  lemma WordSet(a: nat, large: bool, rw: bool, nx: bool)
    requires a % 4096 == 0 && a < FRAME_LIMIT
    ensures var w := Word(a, large, rw, nx);
            && SetBit(w, RW) == Word(a, large, true, nx)
            && SetBit(w, PS) == Word(a, true, rw, nx)
            && SetBit(w, NX) == Word(a, large, rw, true)
            && ClearBit(w, NX) == Word(a, large, rw, false)
  {
    WordFlags(a, large, rw, nx);
  }

  /** The format of x86-64 entries: how they are built and how the hardware reads them. */
  function X86(cpu: Cpu): (f: Format)
    ensures Faithful(f)
  {
    FormatFaithful(cpu);
    Format(Encode, (level: nat, w: nat) => Decode(cpu, level, w), (level: nat, s: Slot) => Buildable(cpu, level, s))
  }

  lemma FormatFaithful(cpu: Cpu)
    ensures forall level, s :: Buildable(cpu, level, s) ==> Decode(cpu, level, Encode(level, s)) == s
  {
    forall level, s | Buildable(cpu, level, s) ensures Decode(cpu, level, Encode(level, s)) == s {
      DecodeEncode(cpu, level, s);
    }
  }

  // ---------------------------------------------------------------- the bits of the last entry

  /** A page's entry has the bits of the grant, and the page's address. */
  lemma LeafStamped(cpu: Cpu, level: nat, f: nat, g: Grant, x: nat)
    requires Buildable(cpu, level, Leaf(f, g))
    ensures var w := Encode(level, Leaf(f, g));
            && w % 2 == 1 && (level == 1 || w / 128 % 2 == 1)
            && Stamped(Some(Reading(level, w)), x, f + x % Span(level), g.write, !g.exec)
  {
    SpanValues();
    SpanPages(f);
    PageBytesIs(level);
    WordFlags(f, level > 1, g.write, !g.exec);
    WordAddress(f, level > 1, g.write, !g.exec);
  }

  /** A table's entry refers to the table. */
  lemma TableRead(cpu: Cpu, level: nat, c: nat, g: Grant)
    requires Buildable(cpu, level, Table(c, g))
    ensures var w := Encode(level, Table(c, g));
            level > 1 && w % 2 == 1 && w / 128 % 2 == 0 && w / 4096 % 0x100_0000_0000 * 4096 == c
  {
    WordFlags(c, false, g.write, !g.exec);
    WordAddress(c, false, g.write, !g.exec);
  }

  /** Where the tree translates `x`, the walk over the words ends at an entry with those bits. */
  lemma {:induction false} FinalFrom(cpu: Cpu, memory: map<nat, seq<nat>>, t: Tree, p: nat, level: nat, x: nat)
    requires Shape(t) && Encoded(memory, t, X86(cpu)) && p in t.slots && t.level[p] == level <= 5
    requires LeafAt(t.slots, p, level, x).Some?
    ensures var h := LeafAt(t.slots, p, level, x).value;
            && Stamped(Final(memory, p, level, x), x, h.hit.address, h.hit.grant.write, !h.hit.grant.exec)
            && Final(memory, p, level, x).value.level == h.level
    decreases level
  {
    hide Stamped, Encode, Buildable, Span, PageBytes, SlotGrant, Decode;
    var i := Index(x, level);
    var s := t.slots[p][i];
    assert Page(memory[p], level, t.slots[p], X86(cpu));
    assert memory[p][i] == Encode(level, s) && Buildable(cpu, level, s);
    PageBytesIs(level);
    if s.Leaf? {
      LeafStamped(cpu, level, s.frame, s.grant, x);
    } else {
      assert SlotShape(t, p, i);
      TableRead(cpu, level, s.child, s.grant);
      FinalFrom(cpu, memory, t, s.child, level - 1, x);
    }
  }

  /** The words in memory carry what the tree grants. */
  lemma FinalIs(cpu: Cpu, memory: map<nat, seq<nat>>, t: Tree, x: nat)
    requires Shape(t) && Encoded(memory, t, X86(cpu)) && t.depth <= 5 && Find(t, x).Some?
    ensures var h := Find(t, x).value;
            && Stamped(Final(memory, t.root, t.depth, x), x, h.hit.address, h.hit.grant.write, !h.hit.grant.exec)
            && Final(memory, t.root, t.depth, x).value.level == h.level
  {
    FinalFrom(cpu, memory, t, t.root, t.depth, x);
  }
}
