/** Page-table entries of RISC-V as 64-bit words: how the hardware reads them (sections 4.3.2
    and 4.4 to 4.6 of the RISC-V Privileged Architecture, version 1.12) and how they are built. */
module RiscvWords {
  import opened Options
  import opened Arith
  import opened PageTree
  import opened TableMemory

  const PTE_V: nat := 1
  const PTE_R: nat := 2
  const PTE_W: nat := 4
  const PTE_X: nat := 8

  /** One past the highest physical address a page number of 44 bits can name. */
  const FRAME_LIMIT: nat := 0x100_0000_0000_0000

  /** `PA_TO_PPN(pa) << PTE_PPN_SHIFT` */
  function PpnField(pa: nat): nat { pa / 4096 % 0x1000_0000_0000 * 1024 }

  /** `PTE_TO_PA(pte)` */
  function PteToPa(pte: nat): nat { pte / 1024 * 4096 }

  // ---------------------------------------------------------------- the hardware's reading

  // Weights of bits are written out here, apart from the constants of the builder.

  /** Bits 1, 2 and 3 allow reading, writing and execution. */
  function GrantOf(w: nat): Grant { Grant(w / 2 % 2 == 1, w / 4 % 2 == 1, w / 8 % 2 == 1) }

  /** How the hardware reads an entry of a table at `level`: invalid, reserved, a pointer to
      the next table, or a leaf, which has to be aligned to the size it maps. */
  function Decode(level: nat, w: nat): Slot {
    var address := w / 1024 % 0x1000_0000_0000 * 4096;
    if w % 2 == 0 || w >= 0x40_0000_0000_0000 then Absent
    else if w / 4 % 2 == 1 && w / 2 % 2 == 0 then Absent
    else if w / 2 % 2 == 0 && w / 8 % 2 == 0 then
      if level <= 1 then Absent else Table(address, FULL)
    else if address % Span(level) != 0 then Absent
    else Leaf(address, GrantOf(w))
  }

  /** The entry at which the hardware ends its walk for `x`: the first that is valid and lets
      a page be read or executed. */
  function Final(memory: map<nat, seq<nat>>, page: nat, level: nat, x: nat): Option<Reading>
    decreases level
  {
    if level == 0 || page !in memory || |memory[page]| != 512 then None
    else
      var w := memory[page][x / PageBytes(level) % 512];
      if w % 2 == 0 then None
      else if w / 2 % 2 == 1 || w / 8 % 2 == 1 then Some(Reading(level, w))
      else Final(memory, w / 1024 % 0x1000_0000_0000 * 4096, level - 1, x)
  }

  /** The walk for `x` ends at a valid entry with no reserved bit set that holds `address`, and
      has bit 1 for reading, bit 2 for writing and bit 3 for execution. */
  predicate Stamped(r: Option<Reading>, x: nat, address: nat, g: Grant) {
    && r.Some? && r.value.level >= 1
    && var w := r.value.word;
    && w % 2 == 1 && w < 0x40_0000_0000_0000
    && (w / 2 % 2 == 1 <==> g.read) && (w / 4 % 2 == 1 <==> g.write) && (w / 8 % 2 == 1 <==> g.exec)
    && w / 1024 % 0x1000_0000_0000 * 4096 + x % PageBytes(r.value.level) == address
  }

  // ---------------------------------------------------------------- the builder's words

  function Flags(g: Grant): nat {
    (if g.read then PTE_R else 0) + (if g.write then PTE_W else 0) + (if g.exec then PTE_X else 0)
  }

  function Word(address: nat, flags: nat): nat { PpnField(address) + PTE_V + flags }

  function Encode(level: nat, s: Slot): nat {
    match s
    case Absent => 0
    case Table(c, g) => Word(c, 0)
    case Leaf(f, g) => Word(f, Flags(g))
  }

  /** The permissions an entry can give a page: some access, and no writing without reading. */
  predicate LeafFlags(g: Grant) { (g.read || g.exec) && (g.write ==> g.read) }

  predicate Buildable(level: nat, s: Slot) {
    match s
    case Absent => true
    case Table(c, g) => level > 1 && g == FULL && c % 4096 == 0 && c < FRAME_LIMIT
    case Leaf(f, g) => level >= 1 && LeafFlags(g) && f % 4096 == 0 && f % Span(level) == 0 && f < FRAME_LIMIT
  }

  lemma WordFields(a: nat, g: Grant)
    requires a % 4096 == 0 && a < FRAME_LIMIT
    ensures var w := Word(a, Flags(g));
            && w < 0x40_0000_0000_0000 && w % 2 == 1 && GrantOf(w) == g
            && w / 1024 % 0x1000_0000_0000 * 4096 == a && PteToPa(w) == a
  {
    var k, r, u, x := a / 4096, Flag(g.read), Flag(g.write), Flag(g.exec);
    var w := Word(a, Flags(g));
    ModUnique(k, 0x1000_0000_0000, 0, k);
    assert w == 1024 * k + 1 + 2 * r + 4 * u + 8 * x;
    ModUnique(w, 2, 512 * k + r + 2 * u + 4 * x, 1);
    ModUnique(512 * k + r + 2 * u + 4 * x, 2, 256 * k + u + 2 * x, r);
    ModUnique(w, 4, 256 * k + u + 2 * x, 1 + 2 * r);
    ModUnique(256 * k + u + 2 * x, 2, 128 * k + x, u);
    ModUnique(w, 8, 128 * k + x, 1 + 2 * r + 4 * u);
    ModUnique(128 * k + x, 2, 64 * k, x);
    ModUnique(w, 1024, k, 1 + 2 * r + 4 * u + 8 * x);
  }

  /** The hardware reads a built word as the slot it was built for. */
  lemma DecodeEncode(level: nat, s: Slot)
    requires Buildable(level, s)
    ensures Decode(level, Encode(level, s)) == s
  {
    match s
    case Absent =>
    case Table(c, g) =>
      WordFields(c, Grant(false, false, false));
    case Leaf(f, g) =>
      WordFields(f, g);
  }

  /** A page's entry is read back as that page exactly when its permissions are ones an
      entry can express: no access at all reads as a pointer, and write-only is reserved. */
  lemma LeafFlagsExact(level: nat, f: nat, g: Grant)
    requires level >= 1 && f % 4096 == 0 && f % Span(level) == 0 && f < FRAME_LIMIT
    ensures Decode(level, Word(f, Flags(g))) == Leaf(f, g) <==> LeafFlags(g)
    ensures g == Grant(false, false, false) && level > 1 ==> Decode(level, Word(f, Flags(g))) == Table(f, FULL)
  {
    WordFields(f, g);
  }

  /** The format of RISC-V entries: how they are built and how the hardware reads them. */
  function Riscv(): (f: Format)
    ensures Faithful(f)
  {
    FormatFaithful();
    Format(Encode, Decode, Buildable)
  }

  lemma FormatFaithful()
    ensures forall level, s :: Buildable(level, s) ==> Decode(level, Encode(level, s)) == s
  {
    forall level, s | Buildable(level, s) ensures Decode(level, Encode(level, s)) == s {
      DecodeEncode(level, s);
    }
  }

  // ---------------------------------------------------------------- the bits of the last entry

  /** Where the tree translates `x`, the walk over the words ends at an entry with the bits of
      its grant. */
  lemma {:induction false} FinalFrom(memory: map<nat, seq<nat>>, t: Tree, p: nat, level: nat, x: nat)
    requires Shape(t) && Encoded(memory, t, Riscv()) && p in t.slots && t.level[p] == level <= 5
    requires LeafAt(t.slots, p, level, x).Some?
    ensures var h := LeafAt(t.slots, p, level, x).value;
            && Stamped(Final(memory, p, level, x), x, h.hit.address, h.hit.grant)
            && Final(memory, p, level, x).value.level == h.level
    decreases level
  {
    var i := Index(x, level);
    var s := t.slots[p][i];
    assert Page(memory[p], level, t.slots[p], Riscv());
    assert memory[p][i] == Encode(level, s) && Buildable(level, s);
    PageBytesIs(level);
    if s.Leaf? {
      WordFields(s.frame, s.grant);
    } else {
      assert SlotShape(t, p, i);
      WordFields(s.child, Grant(false, false, false));
      FinalFrom(memory, t, s.child, level - 1, x);
    }
  }

  /** The words in memory carry what the tree grants. */
  lemma FinalIs(memory: map<nat, seq<nat>>, t: Tree, x: nat)
    requires Shape(t) && Encoded(memory, t, Riscv()) && t.depth <= 5 && Find(t, x).Some?
    ensures var h := Find(t, x).value;
            && Stamped(Final(memory, t.root, t.depth, x), x, h.hit.address, h.hit.grant)
            && Final(memory, t.root, t.depth, x).value.level == h.level
  {
    FinalFrom(memory, t, t.root, t.depth, x);
  }

  /** Only the page number of an aligned address goes into an entry. */
  lemma PpnIs(a: nat)
    requires a % 4096 == 0
    ensures PpnField(a) == PpnField(a % FRAME_LIMIT) && a % FRAME_LIMIT % 4096 == 0
  {
    ModDiv(a, 4096, 0x1000_0000_0000);
  }
}
