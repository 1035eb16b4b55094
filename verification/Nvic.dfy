/** Interrupt priorities: the codec for preemption and sub-priority, and the two ways the
  * priority registers are stored, as packed words (core_armv8mbl.h) and as bytes
  * (core_armv81mml.h).
  */
module Nvic {
  import opened Bits
  import opened FixedPoint

  // ---- NVIC_EncodePriority and NVIC_DecodePriority ----

  // __NVIC_PRIO_BITS, the number of priority bits the device implements.
  type PrioBits = b: nat | 1 <= b <= 8 witness 1

  // `group & 7` is group % 8 throughout.
  function PreemptBits(group: U32, prioBits: PrioBits): nat {
    if 7 - group % 8 > prioBits then prioBits else 7 - group % 8
  }

  function SubBits(group: U32, prioBits: PrioBits): nat {
    if group % 8 + prioBits < 7 then 0 else group % 8 - 7 + prioBits
  }

  /** In every group the two fields share the implemented bits between them. */
  lemma FieldsFillPriority(group: U32, prioBits: PrioBits)
    ensures PreemptBits(group, prioBits) + SubBits(group, prioBits) == prioBits
  {
  }

  function EncodePriority(group: U32, preempt: U32, sub: U32, prioBits: PrioBits): nat {
    Join(PreemptBits(group, prioBits), SubBits(group, prioBits), preempt, sub)
  }

  function DecodePriority(priority: U32, group: U32, prioBits: PrioBits): (nat, nat) {
    Split(PreemptBits(group, prioBits), SubBits(group, prioBits), priority)
  }

  // `((a & ((1 << p) - 1)) << s) | (b & ((1 << s) - 1))`
  function Join(p: nat, s: nat, a: U32, b: U32): nat {
    Or(And(a, Pow2(p) - 1) * Pow2(s) % 0x1_0000_0000, And(b, Pow2(s) - 1))
  }

  // `(v >> s) & ((1 << p) - 1)` and `v & ((1 << s) - 1)`
  function Split(p: nat, s: nat, v: U32): (nat, nat) {
    (And(ShiftRight(v, s), Pow2(p) - 1), And(v, Pow2(s) - 1))
  }

  // The bit operations as arithmetic: b is the low s bits, a the p bits above, and the whole
  // number stays below 2^(p + s).
  lemma JoinIs(p: nat, s: nat, a: U32, b: U32)
    requires p + s <= 8
    ensures Join(p, s, a, b) == a % Pow2(p) * Pow2(s) + b % Pow2(s)
    ensures Join(p, s, a, b) < Pow2(p + s) <= 0x100
  {
    hide And, Or;
    AndLowMask(a, p);
    AndLowMask(b, s);
    Pow2Add(p, s);
    SmallPow2(p + s);
    hide Pow2;
    FieldsBound(a % Pow2(p), Pow2(p), b % Pow2(s), Pow2(s));
    OrFields(a % Pow2(p), s, b % Pow2(s));
    ModSmall(a % Pow2(p) * Pow2(s), 0x1_0000_0000);
  }

  lemma SmallPow2(n: nat)
    requires n <= 8
    ensures Pow2(n) <= 0x100
  {
    Pow2Mono(n, 8);
    Pow2Values();
  }

  lemma FieldsBound(a: nat, P: nat, b: nat, S: nat)
    requires a < P && b < S
    ensures 0 <= a * S <= a * S + b < P * S
  {
    assert a * S <= (P - 1) * S;
    assert (P - 1) * S == P * S - S;
  }

  lemma SplitIs(p: nat, s: nat, v: U32)
    ensures Split(p, s, v) == (ShiftRight(v, s) % Pow2(p), v % Pow2(s))
  {
    hide And, ShiftRight;
    AndLowMask(ShiftRight(v, s), p);
    AndLowMask(v, s);
  }

  lemma SplitOfJoin(p: nat, s: nat, a: U32, b: U32)
    requires p + s <= 8
    ensures Join(p, s, a, b) < 0x100 && Split(p, s, Join(p, s, a, b)) == (a % Pow2(p), b % Pow2(s))
  {
    hide Join, Split, Pow2;
    JoinIs(p, s, a, b);
    SplitIs(p, s, Join(p, s, a, b));
    DivModUnique(Join(p, s, a, b), Pow2(s), a % Pow2(p), b % Pow2(s));
    DivModUnique(a % Pow2(p), Pow2(p), 0, a % Pow2(p));
  }

  lemma JoinOfSplit(p: nat, s: nat, v: nat)
    requires p + s <= 8 && v < Pow2(p + s)
    ensures v < 0x100
    ensures var (a, b) := Split(p, s, v); a < Pow2(p) && b < Pow2(s) && a < 0x100 && b < 0x100 && Join(p, s, a, b) == v
  {
    SmallPow2(p + s);
    SmallPow2(p);
    SmallPow2(s);
    Pow2Add(p, s);
    hide Join, Split, Pow2, ShiftRight;
    SplitIs(p, s, v);
    Digits(v, p, s);
    JoinIs(p, s, ShiftRight(v, s), v % Pow2(s));
  }

  lemma Digits(v: nat, p: nat, s: nat)
    requires v < Pow2(p) * Pow2(s)
    ensures var a, b := ShiftRight(v, s), v % Pow2(s);
      a < Pow2(p) && a % Pow2(p) == a && b < Pow2(s) && b % Pow2(s) == b && v == a * Pow2(s) + b && a <= v && b <= v
  {
    hide Pow2;
    var a, b := ShiftRight(v, s), v % Pow2(s);
    DigitsOf(v, Pow2(p), Pow2(s), a, b);
  }

  lemma DigitsOf(v: nat, P: nat, S: nat, a: int, b: int)
    requires 0 < P && 0 < S && v < P * S && a == v / S && b == v % S
    ensures 0 <= a < P && a % P == a && 0 <= b < S && b % S == b && v == a * S + b && a <= v && b <= v
  {
    assert v == a * S + b;
    FloorBounds(v, S, P);
    ModSmall(a, P);
    ModSmall(b, S);
    MulMono(a, 1, S, S);
  }

  /** What each group means: the low max(0, group % 8 + prioBits - 7) bits are the
    * sub-priority and the rest of the implemented bits the preemption priority. */
  lemma EncodePriorityIs(group: U32, preempt: U32, sub: U32, prioBits: PrioBits, s: nat)
    requires s == if group % 8 + prioBits < 7 then 0 else group % 8 + prioBits - 7
    ensures s <= prioBits
    ensures EncodePriority(group, preempt, sub, prioBits) == preempt % Pow2(prioBits - s) * Pow2(s) + sub % Pow2(s)
    ensures preempt < Pow2(prioBits - s) && sub < Pow2(s) ==>
      EncodePriority(group, preempt, sub, prioBits) == preempt * Pow2(s) + sub
  {
    hide Join, Pow2;
    JoinIs(prioBits - s, s, preempt, sub);
    if preempt < Pow2(prioBits - s) { ModSmall(preempt, Pow2(prioBits - s)); }
    if sub < Pow2(s) { ModSmall(sub, Pow2(s)); }
  }

  lemma DecodePriorityIs(group: U32, v: U32, prioBits: PrioBits, s: nat)
    requires s == if group % 8 + prioBits < 7 then 0 else group % 8 + prioBits - 7
    ensures s <= prioBits
    ensures DecodePriority(v, group, prioBits) == (v / Pow2(s) % Pow2(prioBits - s), v % Pow2(s))
    ensures v < Pow2(prioBits) ==> DecodePriority(v, group, prioBits) == (v / Pow2(s), v % Pow2(s))
  {
    hide Split, Pow2;
    SplitIs(prioBits - s, s, v);
    Pow2Add(prioBits - s, s);
    assert prioBits - s + s == prioBits;
    if v < Pow2(prioBits) { Digits(v, prioBits - s, s); }
  }

  /** Decode undoes encode, for any arguments up to the bits the fields can hold. */
  lemma DecodeOfEncode(group: U32, preempt: U32, sub: U32, prioBits: PrioBits)
    ensures var e := EncodePriority(group, preempt, sub, prioBits);
      && e < Pow2(prioBits) <= 0x100
      && DecodePriority(e, group, prioBits)
         == (preempt % Pow2(PreemptBits(group, prioBits)), sub % Pow2(SubBits(group, prioBits)))
  {
    hide Join, Split, Pow2;
    FieldsFillPriority(group, prioBits);
    JoinIs(PreemptBits(group, prioBits), SubBits(group, prioBits), preempt, sub);
    SplitOfJoin(PreemptBits(group, prioBits), SubBits(group, prioBits), preempt, sub);
  }

  /** And encode undoes decode on every number the implemented bits can hold, so encoding is a
    * bijection from in-range pairs onto [0, 2^prioBits). */
  lemma EncodeOfDecode(group: U32, v: nat, prioBits: PrioBits)
    requires v < Pow2(prioBits)
    ensures v < 0x100
    ensures var (a, b) := DecodePriority(v, group, prioBits);
      && a < Pow2(PreemptBits(group, prioBits)) && b < Pow2(SubBits(group, prioBits))
      && a < 0x100 && b < 0x100
      && EncodePriority(group, a, b, prioBits) == v
  {
    hide Join, Split, Pow2;
    FieldsFillPriority(group, prioBits);
    JoinOfSplit(PreemptBits(group, prioBits), SubBits(group, prioBits), v);
  }

  /** Encoded priorities compare as the pairs do, preemption priority first. */
  lemma EncodeOrder(group: U32, preempt: U32, sub: U32, preempt': U32, sub': U32, prioBits: PrioBits)
    requires preempt < Pow2(PreemptBits(group, prioBits)) && preempt' < Pow2(PreemptBits(group, prioBits))
    requires sub < Pow2(SubBits(group, prioBits)) && sub' < Pow2(SubBits(group, prioBits))
    ensures EncodePriority(group, preempt, sub, prioBits) < EncodePriority(group, preempt', sub', prioBits)
      <==> preempt < preempt' || (preempt == preempt' && sub < sub')
  {
    hide Join, Pow2;
    FieldsFillPriority(group, prioBits);
    var p, s := PreemptBits(group, prioBits), SubBits(group, prioBits);
    JoinIs(p, s, preempt, sub);
    JoinIs(p, s, preempt', sub');
    DivModUnique(preempt, Pow2(p), 0, preempt);
    DivModUnique(preempt', Pow2(p), 0, preempt');
    DivModUnique(sub, Pow2(s), 0, sub);
    DivModUnique(sub', Pow2(s), 0, sub');
    Lexicographic(preempt, sub, preempt', sub', Pow2(s));
  }

  lemma Lexicographic(a: nat, b: nat, a': nat, b': nat, S: nat)
    requires b < S && b' < S
    ensures a * S + b < a' * S + b' <==> a < a' || (a == a' && b < b')
  {
    if a < a' { MulMono(S, a + 1, a', a'); }
    if a' < a { MulMono(S, a' + 1, a, a); }
  }

  // ---- One byte lane of a word ----

  type Byte = x: int | 0 <= x < 0x100

  // `(priority << (8U - __NVIC_PRIO_BITS)) & 0xFF`
  function FieldByte(priority: U32, prioBits: PrioBits): nat {
    And(priority * Pow2(8 - prioBits) % 0x1_0000_0000, 0xFF)
  }

  // The implemented bits of the priority, left-aligned in the byte; shifting right recovers them.
  lemma FieldByteIs(priority: U32, prioBits: PrioBits)
    ensures FieldByte(priority, prioBits) < 0x100
    ensures FieldByte(priority, prioBits) == priority % Pow2(prioBits) * Pow2(8 - prioBits)
    ensures ShiftRight(FieldByte(priority, prioBits), 8 - prioBits) == priority % Pow2(prioBits)
  {
    hide And, Pow2;
    Pow2Values();
    var s := 8 - prioBits;
    AndLowMask(priority * Pow2(s) % 0x1_0000_0000, 8);
    ModOfMod(priority * Pow2(s), 8, 32);
    ShiftLeftKeepsLow(priority, s, prioBits);
    assert s + prioBits == 8;
    DivModUnique(FieldByte(priority, prioBits), Pow2(s), priority % Pow2(prioBits), 0);
  }

  // `(w & ~(0xFF << sh)) | (f << sh)`
  function SetByte(w: U32, sh: nat, f: nat): nat {
    Or(And(w, (0xFFFF_FFFF - 0xFF * Pow2(sh)) % 0x1_0000_0000), f * Pow2(sh) % 0x1_0000_0000)
  }

  // `(w >> sh) & 0xFF`
  function GetByte(w: U32, sh: nat): nat { And(ShiftRight(w, sh), 0xFF) }

  // Masking out the byte between hi and lo ...
  lemma AndClearsByte(hi: nat, b: Byte, lo: nat, sh: nat, rest: nat)
    requires lo < Pow2(sh) && hi < Pow2(rest)
    ensures And((hi * 0x100 + b) * Pow2(sh) + lo, (Pow2(rest) - 1) * 0x100 * Pow2(sh) + (Pow2(sh) - 1))
         == hi * 0x100 * Pow2(sh) + lo
  {
    hide And, Pow2;
    Pow2Values();
    AndParts(hi * 0x100 + b, lo, (Pow2(rest) - 1) * 0x100, Pow2(sh) - 1, sh);
    AndParts(hi, b, Pow2(rest) - 1, 0, 8);
    AndZero(b);
    AndLowMask(hi, rest);
    ModSmall(hi, Pow2(rest));
    AndLowMask(lo, sh);
    ModSmall(lo, Pow2(sh));
  }

  // ... and or-ing f into the gap.
  lemma OrFillsByte(hi: nat, lo: nat, f: Byte, sh: nat)
    requires lo < Pow2(sh)
    ensures Or(hi * 0x100 * Pow2(sh) + lo, f * Pow2(sh)) == (hi * 0x100 + f) * Pow2(sh) + lo
  {
    hide Or, Pow2;
    Pow2Values();
    OrParts(hi * 0x100, lo, f, 0, sh);
    OrZero(lo);
    OrFields(hi, 8, f);
  }

  // Byte lane i of a word, and the word with given lanes.
  function Lane(w: U32, i: nat): Byte
    requires i < 4
  {
    if i == 0 then w % 0x100
    else if i == 1 then w / 0x100 % 0x100
    else if i == 2 then w / 0x1_0000 % 0x100
    else w / 0x100_0000 % 0x100
  }

  function Word(b0: Byte, b1: Byte, b2: Byte, b3: Byte): U32 {
    b0 + 0x100 * (b1 + 0x100 * (b2 + 0x100 * b3))
  }

  lemma WordOfLanes(w: U32)
    ensures w == Word(Lane(w, 0), Lane(w, 1), Lane(w, 2), Lane(w, 3))
  {
    assert w / 0x1_0000 == w / 0x100 / 0x100 && w / 0x100_0000 == w / 0x1_0000 / 0x100;
  }

  lemma LanesOfWord(b0: Byte, b1: Byte, b2: Byte, b3: Byte)
    ensures var w := Word(b0, b1, b2, b3);
      Lane(w, 0) == b0 && Lane(w, 1) == b1 && Lane(w, 2) == b2 && Lane(w, 3) == b3
  {
    var w, w1, w2 := Word(b0, b1, b2, b3), b1 + 0x100 * (b2 + 0x100 * b3), b2 + 0x100 * b3;
    assert w / 0x100 == w1 && w1 / 0x100 == w2 && w2 / 0x100 == b3;
    assert w / 0x1_0000 == w / 0x100 / 0x100 && w / 0x100_0000 == w / 0x1_0000 / 0x100;
  }

  lemma ShiftValues()
    ensures Pow2(0) == 1 && Pow2(8) == 0x100 && Pow2(16) == 0x1_0000 && Pow2(24) == 0x100_0000
  {
    assert Pow2(8) == 0x100;
    assert Pow2(16) == 0x1_0000;
  }

  lemma GetByteIsLane(w: U32, i: nat)
    requires i < 4
    ensures GetByte(w, 8 * i) == Lane(w, i)
  {
    ShiftValues();
    hide And, Pow2;
    AndLowMask(ShiftRight(w, 8 * i), 8);
  }

  lemma SetByte0(b0: Byte, b1: Byte, b2: Byte, b3: Byte, f: Byte)
    ensures SetByte(Word(b0, b1, b2, b3), 0, f) == Word(f, b1, b2, b3)
  {
    ShiftValues();
    hide And, Or, Pow2;
    AndClearsByte(b1 + 0x100 * (b2 + 0x100 * b3), b0, 0, 0, 24);
    OrFillsByte(b1 + 0x100 * (b2 + 0x100 * b3), 0, f, 0);
  }

  lemma SetByte1(b0: Byte, b1: Byte, b2: Byte, b3: Byte, f: Byte)
    ensures SetByte(Word(b0, b1, b2, b3), 8, f) == Word(b0, f, b2, b3)
  {
    ShiftValues();
    hide And, Or, Pow2;
    AndClearsByte(b2 + 0x100 * b3, b1, b0, 8, 16);
    OrFillsByte(b2 + 0x100 * b3, b0, f, 8);
  }

  lemma SetByte2(b0: Byte, b1: Byte, b2: Byte, b3: Byte, f: Byte)
    ensures SetByte(Word(b0, b1, b2, b3), 16, f) == Word(b0, b1, f, b3)
  {
    ShiftValues();
    hide And, Or, Pow2;
    AndClearsByte(b3, b2, b0 + 0x100 * b1, 16, 8);
    OrFillsByte(b3, b0 + 0x100 * b1, f, 16);
  }

  lemma SetByte3(b0: Byte, b1: Byte, b2: Byte, b3: Byte, f: Byte)
    ensures SetByte(Word(b0, b1, b2, b3), 24, f) == Word(b0, b1, b2, f)
  {
    ShiftValues();
    hide And, Or, Pow2;
    AndClearsByte(0, b3, b0 + 0x100 * (b1 + 0x100 * b2), 24, 0);
    OrFillsByte(0, b0 + 0x100 * (b1 + 0x100 * b2), f, 24);
  }

  /** The read-modify-write of a packed word replaces one byte lane and keeps the others. */
  lemma SetByteReplacesLane(w: U32, i: nat, f: Byte)
    requires i < 4
    ensures SetByte(w, 8 * i, f) < 0x1_0000_0000
    ensures forall j :: 0 <= j < 4 ==> Lane(SetByte(w, 8 * i, f), j) == if j == i then f else Lane(w, j)
  {
    hide SetByte, Lane, Word;
    var b0, b1, b2, b3 := Lane(w, 0), Lane(w, 1), Lane(w, 2), Lane(w, 3);
    WordOfLanes(w);
    SetByte0(b0, b1, b2, b3, f);
    SetByte1(b0, b1, b2, b3, f);
    SetByte2(b0, b1, b2, b3, f);
    SetByte3(b0, b1, b2, b3, f);
    LanesOfWord(f, b1, b2, b3);
    LanesOfWord(b0, f, b2, b3);
    LanesOfWord(b0, b1, f, b3);
    LanesOfWord(b0, b1, b2, f);
    assert i == 0 || i == 1 || i == 2 || i == 3;
  }

  // ---- The two stores ----

  datatype Words = Words(ipr: seq<U32>, shpr: seq<U32>) {
    predicate Valid() { |ipr| == 124 && |shpr| == 2 }
  }

  datatype Bytes = Bytes(ipr: seq<Byte>, shpr: seq<Byte>) {
    predicate Valid() { |ipr| == 496 && |shpr| == 12 }
  }

  // Interrupts, and the system exceptions both stores hold a register for. The byte store also
  // has one for -12..-9; there the word index underflows.
  type Irq = n: int | -8 <= n < 496

  // _BIT_SHIFT is 8 * (irq & 3), _IP_IDX is irq >> 2 and _SHP_IDX is ((irq & 0xF) - 8) >> 2,
  // all of the interrupt number as an unsigned word.
  function IpIdx(irq: Irq): int { irq % 0x1_0000_0000 / 4 }
  function ShpIdx(irq: Irq): int { (irq % 16 - 8) % 0x1_0000_0000 / 4 }

  lemma IndicesInRange(irq: Irq)
    ensures irq >= 0 ==> IpIdx(irq) == irq / 4
    ensures irq < 0 ==> ShpIdx(irq) == (irq + 8) / 4
  {
  }

  function SetWords(ws: Words, irq: Irq, priority: U32, prioBits: PrioBits): (r: Words)
    requires ws.Valid()
    ensures r.Valid()
  {
    hide FieldByte, SetByte;
    var f := FieldByte(priority, prioBits);
    IndicesInRange(irq);
    FieldByteIs(priority, prioBits);
    if irq >= 0 then
      SetByteReplacesLane(ws.ipr[IpIdx(irq)], irq % 4, f);
      ws.(ipr := ws.ipr[IpIdx(irq) := SetByte(ws.ipr[IpIdx(irq)], 8 * (irq % 4), f)])
    else
      SetByteReplacesLane(ws.shpr[ShpIdx(irq)], irq % 4, f);
      ws.(shpr := ws.shpr[ShpIdx(irq) := SetByte(ws.shpr[ShpIdx(irq)], 8 * (irq % 4), f)])
  }

  function GetWords(ws: Words, irq: Irq, prioBits: PrioBits): nat
    requires ws.Valid()
  {
    ShiftRight(GetByte(if irq >= 0 then ws.ipr[IpIdx(irq)] else ws.shpr[ShpIdx(irq)], 8 * (irq % 4)), 8 - prioBits)
  }

  function SetBytes(bs: Bytes, irq: Irq, priority: U32, prioBits: PrioBits): (r: Bytes)
    requires bs.Valid()
    ensures r.Valid()
  {
    var f := FieldByte(priority, prioBits);
    FieldByteIs(priority, prioBits);
    if irq >= 0 then bs.(ipr := bs.ipr[irq := f]) else bs.(shpr := bs.shpr[irq % 16 - 4 := f])
  }

  function GetBytes(bs: Bytes, irq: Irq, prioBits: PrioBits): nat
    requires bs.Valid()
  {
    ShiftRight(if irq >= 0 then bs.ipr[irq] else bs.shpr[irq % 16 - 4], 8 - prioBits)
  }

  // The byte each store keeps for an interrupt.
  function ByteInWords(ws: Words, irq: Irq): Byte
    requires ws.Valid()
  {
    Lane(if irq >= 0 then ws.ipr[IpIdx(irq)] else ws.shpr[ShpIdx(irq)], irq % 4)
  }

  function ByteInBytes(bs: Bytes, irq: Irq): Byte
    requires bs.Valid()
  {
    if irq >= 0 then bs.ipr[irq] else bs.shpr[irq % 16 - 4]
  }

  // Different interrupts have different lanes.
  lemma LanesDistinct(irq: Irq, other: Irq)
    requires irq != other && irq % 4 == other % 4
    ensures irq >= 0 && other >= 0 ==> IpIdx(irq) != IpIdx(other)
    ensures irq < 0 && other < 0 ==> ShpIdx(irq) != ShpIdx(other)
  {
    hide IpIdx, ShpIdx;
    IndicesInRange(irq);
    IndicesInRange(other);
  }

  /** Setting one interrupt's priority changes that interrupt's byte and no other, in words
    * as in bytes. */
  lemma SetWordsFrame(ws: Words, irq: Irq, priority: U32, prioBits: PrioBits, other: Irq)
    requires ws.Valid()
    ensures FieldByte(priority, prioBits) < 0x100
    ensures ByteInWords(SetWords(ws, irq, priority, prioBits), other)
         == if other == irq then FieldByte(priority, prioBits) else ByteInWords(ws, other)
  {
    hide SetByte, Lane, FieldByte, IpIdx, ShpIdx, Pow2, ShiftRight;
    IndicesInRange(irq);
    IndicesInRange(other);
    FieldByteIs(priority, prioBits);
    var w := if irq >= 0 then ws.ipr[IpIdx(irq)] else ws.shpr[ShpIdx(irq)];
    SetByteReplacesLane(w, irq % 4, FieldByte(priority, prioBits));
    if other != irq && other % 4 == irq % 4 { LanesDistinct(irq, other); }
  }

  lemma LaneIs(w: U32, i: nat)
    requires i < 4
    ensures Lane(w, i) == w / Pow2(8 * i) % 0x100
  {
    ShiftValues();
  }

  // Replacing lane i changes the word by the difference of the bytes, 8 i bits up.
  lemma LaneReplaced(w: U32, w': U32, i: nat)
    requires i < 4 && forall j :: 0 <= j < 4 && j != i ==> Lane(w', j) == Lane(w, j)
    ensures w' == w + (Lane(w', i) - Lane(w, i)) * Pow2(8 * i)
  {
    ShiftValues();
    WordOfLanes(w);
    WordOfLanes(w');
    hide Lane, Pow2;
    assert i == 0 || i == 1 || i == 2 || i == 3;
  }

  /** The packed store in register numbers: interrupt n is byte n % 4 of word n / 4, exception
    * -8 + n is byte n % 4 of system handler word n / 4, and setting one adds the difference
    * of the old and the new byte there. */
  lemma SetWordsIs(ws: Words, irq: Irq, priority: U32, prioBits: PrioBits)
    requires ws.Valid()
    ensures var f, sh := priority % Pow2(prioBits) * Pow2(8 - prioBits), Pow2(8 * (irq % 4));
      var r := SetWords(ws, irq, priority, prioBits);
      if irq >= 0 then
        var w := ws.ipr[irq / 4];
        r.shpr == ws.shpr && |r.ipr| == 124 && r.ipr[irq / 4] == w + (f - w / sh % 0x100) * sh
        && forall k :: 0 <= k < 124 && k != irq / 4 ==> r.ipr[k] == ws.ipr[k]
      else
        var w := ws.shpr[(irq + 8) / 4];
        r.ipr == ws.ipr && |r.shpr| == 2 && r.shpr[(irq + 8) / 4] == w + (f - w / sh % 0x100) * sh
        && forall k :: 0 <= k < 2 && k != (irq + 8) / 4 ==> r.shpr[k] == ws.shpr[k]
  {
    hide SetByte, FieldByte, Lane, Pow2, IpIdx, ShpIdx;
    IndicesInRange(irq);
    FieldByteIs(priority, prioBits);
    var w := if irq >= 0 then ws.ipr[IpIdx(irq)] else ws.shpr[ShpIdx(irq)];
    var w' := SetByte(w, 8 * (irq % 4), FieldByte(priority, prioBits));
    SetByteReplacesLane(w, irq % 4, FieldByte(priority, prioBits));
    LaneReplaced(w, w', irq % 4);
    LaneIs(w, irq % 4);
  }

  lemma GetWordsIs(ws: Words, irq: Irq, prioBits: PrioBits)
    requires ws.Valid()
    ensures GetWords(ws, irq, prioBits) ==
      (if irq >= 0 then ws.ipr[irq / 4] else ws.shpr[(irq + 8) / 4]) / Pow2(8 * (irq % 4)) % 0x100 / Pow2(8 - prioBits)
  {
    hide GetByte, Lane, Pow2, IpIdx, ShpIdx;
    IndicesInRange(irq);
    GetByteIsLane(if irq >= 0 then ws.ipr[IpIdx(irq)] else ws.shpr[ShpIdx(irq)], irq % 4);
    LaneIs(if irq >= 0 then ws.ipr[IpIdx(irq)] else ws.shpr[ShpIdx(irq)], irq % 4);
  }

  /** The byte store: interrupt n is byte n, exception -12 + n is system handler byte n. */
  lemma SetBytesIs(bs: Bytes, irq: Irq, priority: U32, prioBits: PrioBits)
    requires bs.Valid()
    ensures var f := priority % Pow2(prioBits) * Pow2(8 - prioBits);
      && 0 <= f < 0x100
      && SetBytes(bs, irq, priority, prioBits)
         == if irq >= 0 then Bytes(bs.ipr[irq := f], bs.shpr) else Bytes(bs.ipr, bs.shpr[irq + 12 := f])
    ensures GetBytes(bs, irq, prioBits) == (if irq >= 0 then bs.ipr[irq] else bs.shpr[irq + 12]) / Pow2(8 - prioBits)
  {
    hide FieldByte, Pow2;
    FieldByteIs(priority, prioBits);
  }

  ghost predicate Agree(ws: Words, bs: Bytes)
    requires ws.Valid() && bs.Valid()
  {
    forall irq: Irq :: ByteInWords(ws, irq) == ByteInBytes(bs, irq)
  }

  lemma SetsAgree(ws: Words, bs: Bytes, irq: Irq, priority: U32, prioBits: PrioBits)
    requires ws.Valid() && bs.Valid() && Agree(ws, bs)
    ensures Agree(SetWords(ws, irq, priority, prioBits), SetBytes(bs, irq, priority, prioBits))
  {
    hide FieldByte, ByteInWords, SetWords;
    forall other: Irq
      ensures ByteInWords(SetWords(ws, irq, priority, prioBits), other)
           == ByteInBytes(SetBytes(bs, irq, priority, prioBits), other)
    {
      SetWordsFrame(ws, irq, priority, prioBits, other);
      assert ByteInWords(ws, other) == ByteInBytes(bs, other);
    }
  }

  lemma GetsAgree(ws: Words, bs: Bytes, irq: Irq, prioBits: PrioBits)
    requires ws.Valid() && bs.Valid() && Agree(ws, bs)
    ensures GetWords(ws, irq, prioBits) == GetBytes(bs, irq, prioBits)
  {
    hide ShiftRight, GetByte, Lane;
    GetByteIsLane(if irq >= 0 then ws.ipr[IpIdx(irq)] else ws.shpr[ShpIdx(irq)], irq % 4);
    assert ByteInWords(ws, irq) == ByteInBytes(bs, irq);
  }

  // ---- The register files ----

  // The implemented bits of a priority byte.
  lemma TopBitsBound(b: Byte, prioBits: PrioBits)
    ensures ShiftRight(b, 8 - prioBits) < Pow2(prioBits)
  {
    Pow2Values();
    Pow2Add(8 - prioBits, prioBits);
    assert 8 - prioBits + prioBits == 8;
    hide Pow2;
    QuotientBelow(b, Pow2(8 - prioBits), Pow2(prioBits));
  }

  lemma QuotientBelow(v: nat, d: nat, w: nat)
    requires 0 < d && v < d * w
    ensures v / d < w
  {
    if w <= v / d { MulMono(d, w, v / d, v / d); }
  }

  class WordRegisters {
    const ipr: array<U32>
    const shpr: array<U32>
    const prioBits: PrioBits

    ghost predicate Valid() reads this { ipr.Length == 124 && shpr.Length == 2 && ipr != shpr }

    function View(): (ws: Words)
      requires Valid()
      reads this, ipr, shpr
      ensures ws.Valid()
    {
      Words(ipr[..], shpr[..])
    }

    constructor (bits: PrioBits)
      ensures Valid() && fresh(ipr) && fresh(shpr) && prioBits == bits
    {
      ipr := new U32[124](_ => 0);
      shpr := new U32[2](_ => 0);
      prioBits := bits;
    }

    method SetPriority(irq: Irq, priority: U32)
      requires Valid()
      modifies ipr, shpr
      ensures View() == SetWords(old(View()), irq, priority, prioBits)
      ensures forall other: Irq ::
        GetWords(View(), other, prioBits) == if other == irq then priority % Pow2(prioBits)
        else GetWords(old(View()), other, prioBits)
    {
      hide SetByte, FieldByte, GetByte, Pow2, ShiftRight;
      forall other: Irq { GetAfterSet(View(), irq, priority, prioBits, other); }
      FieldByteIs(priority, prioBits);
      var f := FieldByte(priority, prioBits);
      if irq >= 0 {
        SetByteReplacesLane(ipr[IpIdx(irq)], irq % 4, f);
        ipr[IpIdx(irq)] := SetByte(ipr[IpIdx(irq)], 8 * (irq % 4), f);
      } else {
        SetByteReplacesLane(shpr[ShpIdx(irq)], irq % 4, f);
        shpr[ShpIdx(irq)] := SetByte(shpr[ShpIdx(irq)], 8 * (irq % 4), f);
      }
    }

    method GetPriority(irq: Irq) returns (priority: nat)
      requires Valid()
      ensures priority == GetWords(View(), irq, prioBits) == ShiftRight(ByteInWords(View(), irq), 8 - prioBits)
      ensures priority < Pow2(prioBits)
    {
      TopBitsBound(ByteInWords(View(), irq), prioBits);
      GetIsShiftedByte(View(), irq, prioBits);
      hide GetByte;
      var w := if irq >= 0 then ipr[IpIdx(irq)] else shpr[ShpIdx(irq)];
      priority := ShiftRight(GetByte(w, 8 * (irq % 4)), 8 - prioBits);
    }
  }

  class ByteRegisters {
    const ipr: array<Byte>
    const shpr: array<Byte>
    const prioBits: PrioBits

    ghost predicate Valid() reads this { ipr.Length == 496 && shpr.Length == 12 && ipr != shpr }

    function View(): (bs: Bytes)
      requires Valid()
      reads this, ipr, shpr
      ensures bs.Valid()
    {
      Bytes(ipr[..], shpr[..])
    }

    constructor (bits: PrioBits)
      ensures Valid() && fresh(ipr) && fresh(shpr) && prioBits == bits
    {
      ipr := new Byte[496](_ => 0);
      shpr := new Byte[12](_ => 0);
      prioBits := bits;
    }

    method SetPriority(irq: Irq, priority: U32)
      requires Valid()
      modifies ipr, shpr
      ensures View() == SetBytes(old(View()), irq, priority, prioBits)
      ensures forall other: Irq ::
        GetBytes(View(), other, prioBits) == if other == irq then priority % Pow2(prioBits)
        else GetBytes(old(View()), other, prioBits)
    {
      hide FieldByte, Pow2, ShiftRight;
      FieldByteIs(priority, prioBits);
      if irq >= 0 {
        ipr[irq] := FieldByte(priority, prioBits);
      } else {
        shpr[irq % 16 - 4] := FieldByte(priority, prioBits);
      }
    }

    method GetPriority(irq: Irq) returns (priority: nat)
      requires Valid()
      ensures priority == GetBytes(View(), irq, prioBits) == ShiftRight(ByteInBytes(View(), irq), 8 - prioBits)
      ensures priority < Pow2(prioBits)
    {
      TopBitsBound(ByteInBytes(View(), irq), prioBits);
      priority := ShiftRight(if irq >= 0 then ipr[irq] else shpr[irq % 16 - 4], 8 - prioBits);
    }
  }

  // ---- Runs of settings ----

  datatype Setting = Setting(irq: Irq, priority: U32)

  function RunWords(ws: Words, ops: seq<Setting>, prioBits: PrioBits): (r: Words)
    requires ws.Valid()
    ensures r.Valid()
  {
    if ops == [] then ws
    else
      var n := |ops| - 1;
      SetWords(RunWords(ws, ops[..n], prioBits), ops[n].irq, ops[n].priority, prioBits)
  }

  function RunBytes(bs: Bytes, ops: seq<Setting>, prioBits: PrioBits): (r: Bytes)
    requires bs.Valid()
    ensures r.Valid()
  {
    if ops == [] then bs
    else
      var n := |ops| - 1;
      SetBytes(RunBytes(bs, ops[..n], prioBits), ops[n].irq, ops[n].priority, prioBits)
  }

  // What a reader should see: the last priority set, in the implemented bits, or the start value.
  function Expected(start: Words, ops: seq<Setting>, irq: Irq, prioBits: PrioBits): nat
    requires start.Valid()
  {
    if ops == [] then GetWords(start, irq, prioBits)
    else if ops[|ops| - 1].irq == irq then ops[|ops| - 1].priority % Pow2(prioBits)
    else Expected(start, ops[..|ops| - 1], irq, prioBits)
  }

  /** Over every run of settings the packed words and the bytes agree, byte for byte. */
  lemma {:induction false} RunsAgree(ws: Words, bs: Bytes, ops: seq<Setting>, prioBits: PrioBits)
    requires ws.Valid() && bs.Valid() && Agree(ws, bs)
    ensures Agree(RunWords(ws, ops, prioBits), RunBytes(bs, ops, prioBits))
  {
    if ops == [] {
    } else {
      var n := |ops| - 1;
      RunsAgree(ws, bs, ops[..n], prioBits);
      var ws', bs' := RunWords(ws, ops[..n], prioBits), RunBytes(bs, ops[..n], prioBits);
      SetsAgree(ws', bs', ops[n].irq, ops[n].priority, prioBits);
    }
  }

  /** And every interrupt reads back the priority last set for it, untouched by the settings of
    * all the others. */
  lemma {:induction false} RunReadsBack(ws: Words, ops: seq<Setting>, irq: Irq, prioBits: PrioBits)
    requires ws.Valid()
    ensures GetWords(RunWords(ws, ops, prioBits), irq, prioBits) == Expected(ws, ops, irq, prioBits)
  {
    if ops == [] {
    } else {
      var n := |ops| - 1;
      RunReadsBack(ws, ops[..n], irq, prioBits);
      GetAfterSet(RunWords(ws, ops[..n], prioBits), ops[n].irq, ops[n].priority, prioBits, irq);
    }
  }

  lemma GetIsShiftedByte(ws: Words, irq: Irq, prioBits: PrioBits)
    requires ws.Valid()
    ensures GetWords(ws, irq, prioBits) == ShiftRight(ByteInWords(ws, irq), 8 - prioBits)
  {
    hide ShiftRight, GetByte, Lane;
    GetByteIsLane(if irq >= 0 then ws.ipr[IpIdx(irq)] else ws.shpr[ShpIdx(irq)], irq % 4);
  }

  lemma GetAfterSet(ws: Words, irq: Irq, priority: U32, prioBits: PrioBits, other: Irq)
    requires ws.Valid()
    ensures GetWords(SetWords(ws, irq, priority, prioBits), other, prioBits)
         == if other == irq then priority % Pow2(prioBits) else GetWords(ws, other, prioBits)
  {
    hide FieldByte, ByteInWords, SetWords, GetWords, ShiftRight, Pow2;
    GetIsShiftedByte(SetWords(ws, irq, priority, prioBits), other, prioBits);
    GetIsShiftedByte(ws, other, prioBits);
    SetWordsFrame(ws, irq, priority, prioBits, other);
    FieldByteIs(priority, prioBits);
  }

  /** End to end: encode a pair, set it, read it back through either store and decode it. */
  lemma PriorityRoundTrip(ws: Words, irq: Irq, group: U32, preempt: U32, sub: U32, prioBits: PrioBits)
    requires ws.Valid()
    ensures var e := EncodePriority(group, preempt, sub, prioBits);
      && e < 0x100
      && GetWords(SetWords(ws, irq, e, prioBits), irq, prioBits) == e
      && DecodePriority(e, group, prioBits)
         == (preempt % Pow2(PreemptBits(group, prioBits)), sub % Pow2(SubBits(group, prioBits)))
  {
    hide EncodePriority, DecodePriority, SetWords, GetWords, Pow2;
    DecodeOfEncode(group, preempt, sub, prioBits);
    var e := EncodePriority(group, preempt, sub, prioBits);
    GetAfterSet(ws, irq, e, prioBits, irq);
    ModSmall(e, Pow2(prioBits));
  }
}
