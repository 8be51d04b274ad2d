/** Page tables in physical memory, as words of some hardware format. */
module TableMemory {
  import opened Options
  import opened PageTree

  /** How the slots of a table at a level are written as words, and how the hardware reads
      words back; `buildable` are the slots a builder writes. */
  datatype Format = Format(encode: (nat, Slot) -> nat, decode: (nat, nat) -> Slot, buildable: (nat, Slot) -> bool)

  /** The hardware reads what was built, and takes a zero word for an absent entry. */
  ghost predicate Faithful(f: Format) {
    && (forall level, s :: f.buildable(level, s) ==> f.decode(level, f.encode(level, s)) == s)
    && (forall level :: f.buildable(level, Absent) && f.encode(level, Absent) == 0)
  }

  /** The words in memory are those of the tree's slots. */
  ghost predicate Encoded(memory: map<nat, seq<nat>>, t: Tree, f: Format) {
    forall p :: p in t.slots ==> p in memory && p in t.level && Page(memory[p], t.level[p], t.slots[p], f)
  }

  ghost predicate Page(words: seq<nat>, level: nat, slots: seq<Slot>, f: Format) {
    && |words| == |slots| == 512
    && forall i :: 0 <= i < 512 ==> words[i] == f.encode(level, slots[i]) && f.buildable(level, slots[i])
  }

  /** The processor's walk over memory: every entry on the way restricts what is granted. */
  function HardwareWalk(memory: map<nat, seq<nat>>, f: Format, page: nat, level: nat, x: nat,
      granted: Grant): Option<Hit>
    decreases level
  {
    if page !in memory || |memory[page]| != 512 then None
    else
      match f.decode(level, memory[page][Index(x, level)])
      case Absent => None
      case Leaf(a, g) => Some(Hit(a + x % Span(level), granted.And(g)))
      case Table(c, g) => if level <= 1 then None else HardwareWalk(memory, f, c, level - 1, x, granted.And(g))
  }

  lemma {:induction false} WalkEncoded(memory: map<nat, seq<nat>>, t: Tree, f: Format, p: nat, level: nat, x: nat,
      granted: Grant)
    requires Faithful(f) && Shape(t) && Encoded(memory, t, f) && p in t.slots && t.level[p] == level
    ensures HardwareWalk(memory, f, p, level, x, granted) == Walk(t.slots, p, level, x, granted)
    decreases level
  {
    var i := Index(x, level);
    var s := t.slots[p][i];
    assert Page(memory[p], level, t.slots[p], f);
    assert f.decode(level, f.encode(level, s)) == s;
    if s.Table? {
      assert SlotShape(t, p, i);
      WalkEncoded(memory, t, f, s.child, level - 1, x, granted.And(s.grant));
    }
  }

  /** What the processor finds for `x`, starting from the root with everything granted. */
  function HardwareTranslate(memory: map<nat, seq<nat>>, f: Format, root: nat, depth: nat, x: nat): Option<Hit> {
    HardwareWalk(memory, f, root, depth, x, FULL)
  }

  /** The entry at which a walk ends: its level and its word. */
  datatype Reading = Reading(level: nat, word: nat)

  /** Bytes that one entry maps, for the levels there are. */
  function PageBytes(level: nat): (b: nat)
    ensures b > 0
  {
    match level
    case 1 => 4096
    case 2 => 0x20_0000
    case 3 => 0x4000_0000
    case 4 => 0x80_0000_0000
    case _ => 0x1_0000_0000_0000
  }

  lemma PageBytesIs(level: nat)
    requires 1 <= level <= 5
    ensures PageBytes(level) == Span(level)
  {
    SpanValues();
    assert Span(4) == 512 * Span(3);
    assert Span(5) == 512 * Span(4);
  }

  /** The processor translates exactly as the tree does, granting what the leaf grants. */
  lemma HardwareIsTranslate(memory: map<nat, seq<nat>>, t: Tree, f: Format, x: nat)
    requires Faithful(f) && Shape(t) && Encoded(memory, t, f)
    ensures HardwareTranslate(memory, f, t.root, t.depth, x) == Translate(t, x)
  {
    WalkEncoded(memory, t, f, t.root, t.depth, x, FULL);
    WalkIsTranslate(t, x);
  }

  /** Memory after the word at index `i` of page `p` is written. */
  function Poke(memory: map<nat, seq<nat>>, p: nat, i: nat, w: nat): map<nat, seq<nat>>
    requires p in memory && i < |memory[p]|
  {
    var words: seq<nat> := memory[p][i := w];
    memory[p := words]
  }

  /** Writing one word changes one slot. */
  lemma EncodedPut(memory: map<nat, seq<nat>>, t: Tree, f: Format, p: nat, i: nat, s: Slot)
    requires Encoded(memory, t, f) && p in t.slots && i < 512 && f.buildable(t.level[p], s)
    ensures p in memory && |memory[p]| == 512
    ensures Encoded(Poke(memory, p, i, f.encode(t.level[p], s)), Put(t, p, i, s), f)
  {
    assert Page(memory[p], t.level[p], t.slots[p], f);
  }

  function Zeroed(): (z: seq<nat>)
    ensures |z| == 512 && forall i :: 0 <= i < 512 ==> z[i] == 0
  {
    seq(512, _ => 0)
  }

  lemma EncodedFresh(memory: map<nat, seq<nat>>, t: Tree, f: Format, c: nat, p: nat, i: nat)
    requires Faithful(f) && Encoded(memory, t, f) && Tables(t) && c !in t.slots && p in t.slots
    ensures Encoded(memory[c := Zeroed()], Fresh(t, c, p, i), f)
  {
  }
}
