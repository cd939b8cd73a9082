/**
 * Instruction-length decoder for x64 machine code (`_asm_x86_inslen`).
 *
 * The decoder never identifies an instruction; it classifies the leading
 * bytes through two 256-entry opcode maps and adds up a length. Each map entry
 * packs an action class in its high nibble and a base length in its low nibble:
 *
 *   0  fixed length, plus 4 when REX.W is present (MOV r64, imm64)
 *   1  prefix byte: count it, remember its flags, read the next opcode byte
 *   2  0F escape: read the next byte through the two-byte map
 *   3  0F 38 / 0F 3A: skip one more opcode byte, then ModR/M
 *   4  fixed length whose immediate shrinks by 2 under the 66 prefix
 *   5  fixed length
 *   6  Group 3 (F6/F7): immediate only when ModR/M.reg is 0
 *   7  VEX lead byte (C4/C5)
 *   8  ModR/M follows; immediate shrinks by 2 under the 66 prefix
 *   9  ModR/M follows
 *
 * Prefix flags (low nibble of a class-1 entry): 2 marks the operand-size
 * prefix 66, 4 marks REX.W. The decoder ORs them into `prefixes` and only ever
 * tests those two bits, so the model keeps the two bits as booleans.
 *
 * Bytes are integers in [0, 256); a shift or mask of a byte is written as the
 * division or remainder by the matching power of two (x >> 4 is x / 16,
 * x & 15 is x % 16, x & 0x38 is bits 3-5, that is x / 8 % 8).
 */
module X86InsLen {
  import opened Wrappers

  type Byte = b: int | 0 <= b < 256

  /** map_op1, x64 build: the one-byte opcode map; row r holds opcodes 16r .. 16r+15. */
  const MapOp1: seq<seq<Byte>> := [
    /* 0_ */ [0x92,0x92,0x92,0x92,0x52,0x45,0x51,0x51,0x92,0x92,0x92,0x92,0x52,0x45,0x51,0x20],
    /* 1_ */ [0x92,0x92,0x92,0x92,0x52,0x45,0x51,0x51,0x92,0x92,0x92,0x92,0x52,0x45,0x51,0x51],
    /* 2_ */ [0x92,0x92,0x92,0x92,0x52,0x45,0x10,0x51,0x92,0x92,0x92,0x92,0x52,0x45,0x10,0x51],
    /* 3_ */ [0x92,0x92,0x92,0x92,0x52,0x45,0x10,0x51,0x92,0x92,0x92,0x92,0x52,0x45,0x10,0x51],
    /* 4_ */ [0x10,0x10,0x10,0x10,0x10,0x10,0x10,0x10,0x14,0x14,0x14,0x14,0x14,0x14,0x14,0x14],
    /* 5_ */ [0x51,0x51,0x51,0x51,0x51,0x51,0x51,0x51,0x51,0x51,0x51,0x51,0x51,0x51,0x51,0x51],
    /* 6_ */ [0x51,0x51,0x92,0x92,0x10,0x10,0x12,0x11,0x45,0x86,0x52,0x93,0x51,0x51,0x51,0x51],
    /* 7_ */ [0x52,0x52,0x52,0x52,0x52,0x52,0x52,0x52,0x52,0x52,0x52,0x52,0x52,0x52,0x52,0x52],
    /* 8_ */ [0x93,0x86,0x93,0x93,0x92,0x92,0x92,0x92,0x92,0x92,0x92,0x92,0x92,0x92,0x92,0x92],
    /* 9_ */ [0x51,0x51,0x51,0x51,0x51,0x51,0x51,0x51,0x51,0x51,0x47,0x51,0x51,0x51,0x51,0x51],
    /* A_ */ [0x59,0x59,0x59,0x59,0x51,0x51,0x51,0x51,0x52,0x45,0x51,0x51,0x51,0x51,0x51,0x51],
    /* B_ */ [0x52,0x52,0x52,0x52,0x52,0x52,0x52,0x52,0x05,0x05,0x05,0x05,0x05,0x05,0x05,0x05],
    /* C_ */ [0x93,0x93,0x53,0x51,0x70,0x71,0x93,0x86,0x54,0x51,0x53,0x51,0x51,0x52,0x51,0x51],
    /* D_ */ [0x92,0x92,0x92,0x92,0x52,0x52,0x51,0x51,0x92,0x92,0x92,0x92,0x92,0x92,0x92,0x92],
    /* E_ */ [0x52,0x52,0x52,0x52,0x52,0x52,0x52,0x52,0x45,0x45,0x47,0x52,0x51,0x51,0x51,0x51],
    /* F_ */ [0x10,0x51,0x10,0x10,0x51,0x51,0x63,0x66,0x51,0x51,0x51,0x51,0x51,0x51,0x92,0x92]
  ]

  /** map_op2: the two-byte (0F xx) opcode map. */
  const MapOp2: seq<seq<Byte>> := [
    /* 0_ */ [0x93,0x93,0x93,0x93,0x52,0x52,0x52,0x52,0x52,0x52,0x51,0x52,0x51,0x93,0x52,0x94],
    /* 1_ */ [0x93,0x93,0x93,0x93,0x93,0x93,0x93,0x93,0x93,0x93,0x93,0x93,0x93,0x93,0x93,0x93],
    /* 2_ */ [0x53,0x53,0x53,0x53,0x53,0x53,0x53,0x53,0x93,0x93,0x93,0x93,0x93,0x93,0x93,0x93],
    /* 3_ */ [0x52,0x52,0x52,0x52,0x52,0x52,0x52,0x52,0x34,0x51,0x35,0x51,0x51,0x51,0x51,0x51],
    /* 4_ */ [0x93,0x93,0x93,0x93,0x93,0x93,0x93,0x93,0x93,0x93,0x93,0x93,0x93,0x93,0x93,0x93],
    /* 5_ */ [0x53,0x93,0x93,0x93,0x93,0x93,0x93,0x93,0x93,0x93,0x93,0x93,0x93,0x93,0x93,0x93],
    /* 6_ */ [0x93,0x93,0x93,0x93,0x93,0x93,0x93,0x93,0x93,0x93,0x93,0x93,0x93,0x93,0x93,0x93],
    /* 7_ */ [0x94,0x54,0x54,0x54,0x93,0x93,0x93,0x52,0x93,0x93,0x93,0x93,0x93,0x93,0x93,0x93],
    /* 8_ */ [0x46,0x46,0x46,0x46,0x46,0x46,0x46,0x46,0x46,0x46,0x46,0x46,0x46,0x46,0x46,0x46],
    /* 9_ */ [0x93,0x93,0x93,0x93,0x93,0x93,0x93,0x93,0x93,0x93,0x93,0x93,0x93,0x93,0x93,0x93],
    /* A_ */ [0x52,0x52,0x52,0x93,0x94,0x93,0x51,0x51,0x52,0x52,0x52,0x93,0x94,0x93,0x93,0x93],
    /* B_ */ [0x93,0x93,0x93,0x93,0x93,0x93,0x93,0x93,0x93,0x93,0x94,0x93,0x93,0x93,0x93,0x93],
    /* C_ */ [0x93,0x93,0x94,0x93,0x94,0x94,0x94,0x93,0x52,0x52,0x52,0x52,0x52,0x52,0x52,0x52],
    /* D_ */ [0x93,0x93,0x93,0x93,0x93,0x93,0x93,0x93,0x93,0x93,0x93,0x93,0x93,0x93,0x93,0x93],
    /* E_ */ [0x93,0x93,0x93,0x93,0x93,0x93,0x93,0x93,0x93,0x93,0x93,0x93,0x93,0x93,0x93,0x93],
    /* F_ */ [0x93,0x93,0x93,0x93,0x93,0x93,0x93,0x93,0x93,0x93,0x93,0x93,0x93,0x93,0x93,0x52]
  ]

  function Op1(b: Byte): Byte { MapOp1[b / 16][b % 16] }

  function Op2(b: Byte): Byte { MapOp2[b / 16][b % 16] }

  /** The action class packed in the high nibble of an entry. */
  function Class(x: Byte): int { x / 16 }

  /** The base length packed in the low nibble of an entry. */
  function Base(x: Byte): int { x % 16 }

  /** The prefix flags the decoder tests: bit 2 (operand size 66) and bit 4 (REX.W). */
  datatype Prefixes = Prefixes(opsize: bool, rexw: bool)

  const NoPrefixes := Prefixes(false, false)

  /** `prefixes |= x` for a class-1 entry x, seen through the two bits that are ever read. */
  function AddFlags(pre: Prefixes, x: Byte): Prefixes
  {
    Prefixes(pre.opsize || x % 4 >= 2, pre.rexw || x % 8 >= 4)
  }

  /** `prefixes & 2`: 2 under the operand-size prefix, else 0. */
  function OpsizeBytes(pre: Prefixes): int { if pre.opsize then 2 else 0 }

  /** `prefixes & 4`: 4 under REX.W, else 0. */
  function RexWBytes(pre: Prefixes): int { if pre.rexw then 4 else 0 }

  /**
   * Where one pass of the decoder's `for (;;)` loop leaves it: returning a
   * length, back at the top of the loop in a new state, at the `mrm` label with
   * the ModR/M byte at q + 1, or stopped because it would read past the buffer
   * (or, for a class above 9, which no entry has, spin forever).
   */
  datatype Step =
    | Done(len: int)
    | Next(p: nat, x: Byte, result: int, prefixes: Prefixes)
    | Mrm(q: nat, x: Byte, result: int)
    | Stop

  /** One pass of the loop body from position p with entry x, running length result and prefix flags pre. */
  function StepAt(code: seq<Byte>, p: nat, x: Byte, result: int, pre: Prefixes): (s: Step)
    requires p < |code|
    ensures s.Next? ==> p < s.p < |code|
    ensures s.Mrm? ==> p <= s.q
  {
    match Class(x)
    case 0 => Done(result + x + RexWBytes(pre))
    case 1 =>
      if p + 1 < |code| then Next(p + 1, Op1(code[p + 1]), result + 1, AddFlags(pre, x)) else Stop
    case 2 =>
      if p + 1 < |code| then Next(p + 1, Op2(code[p + 1]), result, pre) else Stop
    case 3 => Mrm(p + 1, x, result)
    case 4 => Done(result - OpsizeBytes(pre) + Base(x))
    case 5 => Done(result + Base(x))
    case 6 =>
      if p + 1 < |code| then
        Mrm(p, if code[p + 1] / 8 % 8 != 0 then 2 else if pre.opsize && x == 0x66 then 4 else x, result)
      else Stop
    case 7 =>
      if x == 0x70 then
        // Three-byte VEX: C4, RXB.mmmmm, W.vvvv.L.pp, opcode.
        if p + 1 < |code| then
          var mmmmm := code[p + 1] % 32;
          if mmmmm >= 2 then Mrm(p + 3, mmmmm, result + 3)
          else if p + 3 < |code| then Next(p + 3, Op2(code[p + 3]), result + 2, pre)
          else Stop
        else Stop
      else
        // Two-byte VEX: C5, R.vvvv.L.pp, opcode.
        if p + 2 < |code| then Next(p + 2, Op2(code[p + 2]), result + 1, pre) else Stop
    case 8 => Mrm(p, x, result - OpsizeBytes(pre))
    case 9 => Mrm(p, x, result)
    case _ => Stop
  }

  /**
   * The part of the `mrm` block that reads the ModR/M byte at q + 1 (mod in its
   * top two bits, rm in its low three): the number of SIB and displacement
   * bytes it calls for, or None if a byte it inspects lies past the buffer.
   */
  function AddressingTail(code: seq<Byte>, q: nat): Option<int>
  {
    if q + 1 >= |code| then None
    else
      var mod := code[q + 1] / 64;
      var rm := code[q + 1] % 8;
      if mod == 0 then
        if rm == 5 then Some(4)
        else if rm == 4 then
          if q + 2 < |code| then Some(1 + (if code[q + 2] % 8 == 5 then 4 else 0)) else None
        else Some(0)
      else if mod == 1 then Some(1 + (if rm == 4 then 1 else 0))
      else if mod == 2 then Some(4 + (if rm == 4 then 1 else 0))
      else Some(0)
  }

  /** The `mrm` block: the entry's base length and the bytes the ModR/M byte at q + 1 calls for. */
  function ModRM(code: seq<Byte>, q: nat, x: Byte, result: int): Option<int>
  {
    match AddressingTail(code, q)
    case None => None
    case Some(n) => Some(result + Base(x) + n)
  }

  /** The decoder's loop run to its end from the state (p, x, result, pre). */
  function Run(code: seq<Byte>, p: nat, x: Byte, result: int, pre: Prefixes): Option<int>
    requires p < |code|
    decreases |code| - p, 1
  {
    Resume(code, StepAt(code, p, x, result, pre))
  }

  /** The decoder after a pass that ended in s. */
  function Resume(code: seq<Byte>, s: Step): Option<int>
    requires s.Next? ==> s.p < |code|
    decreases if s.Next? then |code| - s.p else 0, 2
  {
    match s
    case Done(n) => Some(n)
    case Next(p', x', result', pre') => Run(code, p', x', result', pre')
    case Mrm(q, x', result') => ModRM(code, q, x', result')
    case Stop => None
  }

  /** Run unfolded by one pass of the loop. */
  lemma RunStep(code: seq<Byte>, p: nat, x: Byte, result: int, pre: Prefixes)
    requires p < |code|
    ensures Run(code, p, x, result, pre) == Resume(code, StepAt(code, p, x, result, pre))
  {
  }

  /** The length of the instruction starting at code[p], or None if decoding it would read past the buffer. */
  function InsLen(code: seq<Byte>, p: nat): (len: Option<int>)
    ensures len.Some? ==> len.value >= 1
  {
    if p < |code| then
      OneByteMap();
      RunPositive(code, p, Op1(code[p]), 0, NoPrefixes);
      Resume(code, Next(p, Op1(code[p]), 0, NoPrefixes))
    else None
  }

  /** Offsets a decoded length by k bytes. */
  function Shift(len: Option<int>, k: int): Option<int>
  {
    match len
    case None => None
    case Some(n) => Some(n + k)
  }

  // ---------------------------------------------------------------------------
  // The opcode maps

  /**
   * What the decoder relies on in every entry: the class is one the dispatch
   * handles, and the base length keeps every decoded length positive (at least
   * 3 where the 66 prefix may take 2 away).
   */
  predicate EntryOk(x: Byte)
  {
    && Class(x) <= 9
    && (Class(x) != 1 && Class(x) != 2 && Class(x) != 7 ==> Base(x) >= 1)
    && (Class(x) == 4 || Class(x) == 8 ==> Base(x) >= 3)
  }

  /**
   * The prefixes of 64-bit mode: segment overrides, operand size 66, address
   * size 67, REX 40-4F, LOCK F0 and REP F2/F3.
   */
  predicate IsPrefixByte(b: Byte)
  {
    b == 0x26 || b == 0x2e || b == 0x36 || b == 0x3e || b == 0x64 || b == 0x65 || b == 0x66 ||
    b == 0x67 || (0x40 <= b <= 0x4f) || b == 0xf0 || b == 0xf2 || b == 0xf3
  }

  /**
   * What the one-byte map promises for the opcode 16 * i + j: a well-formed
   * entry, of class 1 exactly for a prefix, with flag 2 for 66 alone and flag 4
   * for REX.W alone.
   */
  predicate OneByteEntryOk(i: int, j: int)
    requires 0 <= i < 16 && 0 <= j < 16
  {
    var x := MapOp1[i][j];
    && EntryOk(x)
    && (Class(x) == 1 <==> IsPrefixByte(16 * i + j))
    && (Class(x) == 1 && x % 4 >= 2 <==> 16 * i + j == 0x66)
    && (Class(x) == 1 && x % 8 >= 4 <==> 0x48 <= 16 * i + j <= 0x4f)
  }

  predicate OneByteRowOk(i: int)
    requires 0 <= i < 16
  {
    forall j :: 0 <= j < 16 ==> OneByteEntryOk(i, j)
  }

  /** What the two-byte map promises: well-formed entries, none a prefix, an escape or a VEX lead. */
  predicate TwoByteEntryOk(i: int, j: int)
    requires 0 <= i < 16 && 0 <= j < 16
  {
    var x := MapOp2[i][j];
    EntryOk(x) && Class(x) != 1 && Class(x) != 2 && Class(x) != 7
  }

  predicate TwoByteRowOk(i: int)
    requires 0 <= i < 16
  {
    forall j :: 0 <= j < 16 ==> TwoByteEntryOk(i, j)
  }

  // Each row is checked on its own, which keeps every proof small; the
  // case split on b picks the row a byte falls in.

  lemma OneByteRow0()
    ensures OneByteRowOk(0x0)
  {
  }

  lemma OneByteRow1()
    ensures OneByteRowOk(0x1)
  {
  }

  lemma OneByteRow2()
    ensures OneByteRowOk(0x2)
  {
  }

  lemma OneByteRow3()
    ensures OneByteRowOk(0x3)
  {
  }

  lemma OneByteRow4()
    ensures OneByteRowOk(0x4)
  {
  }

  lemma OneByteRow5()
    ensures OneByteRowOk(0x5)
  {
  }

  lemma OneByteRow6()
    ensures OneByteRowOk(0x6)
  {
  }

  lemma OneByteRow7()
    ensures OneByteRowOk(0x7)
  {
  }

  lemma OneByteRow8()
    ensures OneByteRowOk(0x8)
  {
  }

  lemma OneByteRow9()
    ensures OneByteRowOk(0x9)
  {
  }

  lemma OneByteRowA()
    ensures OneByteRowOk(0xA)
  {
  }

  lemma OneByteRowB()
    ensures OneByteRowOk(0xB)
  {
  }

  lemma OneByteRowC()
    ensures OneByteRowOk(0xC)
  {
  }

  lemma OneByteRowD()
    ensures OneByteRowOk(0xD)
  {
  }

  lemma OneByteRowE()
    ensures OneByteRowOk(0xE)
  {
  }

  lemma OneByteRowF()
    ensures OneByteRowOk(0xF)
  {
  }

  lemma OneByteEntries()
    ensures forall b: Byte :: OneByteEntryOk(b / 16, b % 16)
  {
    forall b: Byte
      ensures OneByteEntryOk(b / 16, b % 16)
    {
      if b < 0x10 { OneByteRow0(); }
      else if b < 0x20 { OneByteRow1(); }
      else if b < 0x30 { OneByteRow2(); }
      else if b < 0x40 { OneByteRow3(); }
      else if b < 0x50 { OneByteRow4(); }
      else if b < 0x60 { OneByteRow5(); }
      else if b < 0x70 { OneByteRow6(); }
      else if b < 0x80 { OneByteRow7(); }
      else if b < 0x90 { OneByteRow8(); }
      else if b < 0xA0 { OneByteRow9(); }
      else if b < 0xB0 { OneByteRowA(); }
      else if b < 0xC0 { OneByteRowB(); }
      else if b < 0xD0 { OneByteRowC(); }
      else if b < 0xE0 { OneByteRowD(); }
      else if b < 0xF0 { OneByteRowE(); }
      else { OneByteRowF(); }
    }
  }

  /** The one-byte map: every entry well formed, and class 1 with its flags exactly for the prefixes. */
  lemma OneByteMap()
    ensures forall b: Byte :: EntryOk(Op1(b))
    ensures forall b: Byte :: Class(Op1(b)) == 1 <==> IsPrefixByte(b)
    ensures forall b: Byte :: (Class(Op1(b)) == 1 && Op1(b) % 4 >= 2) <==> b == 0x66
    ensures forall b: Byte :: (Class(Op1(b)) == 1 && Op1(b) % 8 >= 4) <==> 0x48 <= b <= 0x4f
  {
    forall b: Byte
      ensures EntryOk(Op1(b))
      ensures Class(Op1(b)) == 1 <==> IsPrefixByte(b)
      ensures (Class(Op1(b)) == 1 && Op1(b) % 4 >= 2) <==> b == 0x66
      ensures (Class(Op1(b)) == 1 && Op1(b) % 8 >= 4) <==> 0x48 <= b <= 0x4f
    {
      OneByteEntries();
      assert OneByteEntryOk(b / 16, b % 16);
      assert 16 * (b / 16) + b % 16 == b;
    }
  }

  lemma TwoByteRow0()
    ensures TwoByteRowOk(0x0)
  {
  }

  lemma TwoByteRow1()
    ensures TwoByteRowOk(0x1)
  {
  }

  lemma TwoByteRow2()
    ensures TwoByteRowOk(0x2)
  {
  }

  lemma TwoByteRow3()
    ensures TwoByteRowOk(0x3)
  {
  }

  lemma TwoByteRow4()
    ensures TwoByteRowOk(0x4)
  {
  }

  lemma TwoByteRow5()
    ensures TwoByteRowOk(0x5)
  {
  }

  lemma TwoByteRow6()
    ensures TwoByteRowOk(0x6)
  {
  }

  lemma TwoByteRow7()
    ensures TwoByteRowOk(0x7)
  {
  }

  lemma TwoByteRow8()
    ensures TwoByteRowOk(0x8)
  {
  }

  lemma TwoByteRow9()
    ensures TwoByteRowOk(0x9)
  {
  }

  lemma TwoByteRowA()
    ensures TwoByteRowOk(0xA)
  {
  }

  lemma TwoByteRowB()
    ensures TwoByteRowOk(0xB)
  {
  }

  lemma TwoByteRowC()
    ensures TwoByteRowOk(0xC)
  {
  }

  lemma TwoByteRowD()
    ensures TwoByteRowOk(0xD)
  {
  }

  lemma TwoByteRowE()
    ensures TwoByteRowOk(0xE)
  {
  }

  lemma TwoByteRowF()
    ensures TwoByteRowOk(0xF)
  {
  }

  lemma TwoByteEntries()
    ensures forall b: Byte :: TwoByteEntryOk(b / 16, b % 16)
  {
    forall b: Byte
      ensures TwoByteEntryOk(b / 16, b % 16)
    {
      if b < 0x10 { TwoByteRow0(); }
      else if b < 0x20 { TwoByteRow1(); }
      else if b < 0x30 { TwoByteRow2(); }
      else if b < 0x40 { TwoByteRow3(); }
      else if b < 0x50 { TwoByteRow4(); }
      else if b < 0x60 { TwoByteRow5(); }
      else if b < 0x70 { TwoByteRow6(); }
      else if b < 0x80 { TwoByteRow7(); }
      else if b < 0x90 { TwoByteRow8(); }
      else if b < 0xA0 { TwoByteRow9(); }
      else if b < 0xB0 { TwoByteRowA(); }
      else if b < 0xC0 { TwoByteRowB(); }
      else if b < 0xD0 { TwoByteRowC(); }
      else if b < 0xE0 { TwoByteRowD(); }
      else if b < 0xF0 { TwoByteRowE(); }
      else { TwoByteRowF(); }
    }
  }

  /** The two-byte map: every entry well formed, and none a prefix, an escape or a VEX lead. */
  lemma TwoByteMap()
    ensures forall b: Byte :: EntryOk(Op2(b)) && Class(Op2(b)) != 1 && Class(Op2(b)) != 2 && Class(Op2(b)) != 7
  {
    forall b: Byte
      ensures EntryOk(Op2(b)) && Class(Op2(b)) != 1 && Class(Op2(b)) != 2 && Class(Op2(b)) != 7
    {
      TwoByteEntries();
      assert TwoByteEntryOk(b / 16, b % 16);
    }
  }

  // ---------------------------------------------------------------------------
  // Lengths are positive

  /** One pass of the loop keeps a well-formed entry and a non-negative length, and returns a positive one. */
  lemma StepPositive(code: seq<Byte>, p: nat, x: Byte, result: int, pre: Prefixes)
    requires p < |code| && EntryOk(x) && result >= 0
    ensures match StepAt(code, p, x, result, pre)
      case Done(n) => n >= 1
      case Next(_, x', result', _) => EntryOk(x') && result' >= 0
      case Mrm(_, x', result') => result' + Base(x') >= 1
      case Stop => true
  {
    OneByteMap();
    TwoByteMap();
  }

  lemma {:induction false} ResumePositive(code: seq<Byte>, s: Step)
    requires s.Next? ==> s.p < |code| && EntryOk(s.x) && s.result >= 0
    requires s.Done? ==> s.len >= 1
    requires s.Mrm? ==> s.result + Base(s.x) >= 1
    ensures Resume(code, s).Some? ==> Resume(code, s).value >= 1
    decreases if s.Next? then |code| - s.p else 0
  {
    match s
    case Next(p', x', result', pre') =>
      StepPositive(code, p', x', result', pre');
      ResumePositive(code, StepAt(code, p', x', result', pre'));
    case _ =>
  }

  lemma RunPositive(code: seq<Byte>, p: nat, x: Byte, result: int, pre: Prefixes)
    requires p < |code| && EntryOk(x) && result >= 0
    ensures Run(code, p, x, result, pre).Some? ==> Run(code, p, x, result, pre).value >= 1
  {
    StepPositive(code, p, x, result, pre);
    ResumePositive(code, StepAt(code, p, x, result, pre));
  }

  // ---------------------------------------------------------------------------
  // The decoder only looks forward

  lemma StepLocal(a: seq<Byte>, b: seq<Byte>, q: nat, p: nat, x: Byte, result: int, pre: Prefixes)
    requires |a| == |b| && q <= p < |a|
    requires forall i :: q <= i < |a| ==> a[i] == b[i]
    ensures StepAt(a, p, x, result, pre) == StepAt(b, p, x, result, pre)
  {
    if p + 1 < |a| { assert a[p + 1] == b[p + 1]; }
    if p + 2 < |a| { assert a[p + 2] == b[p + 2]; }
    if p + 3 < |a| { assert a[p + 3] == b[p + 3]; }
  }

  lemma ModRMLocal(a: seq<Byte>, b: seq<Byte>, q: nat, x: Byte, result: int)
    requires |a| == |b|
    requires forall i :: q < i < |a| ==> a[i] == b[i]
    ensures ModRM(a, q, x, result) == ModRM(b, q, x, result)
  {
    if q + 1 < |a| {
      assert a[q + 1] == b[q + 1];
      if q + 2 < |a| { assert a[q + 2] == b[q + 2]; }
    }
  }

  lemma {:induction false} ResumeLocal(a: seq<Byte>, b: seq<Byte>, q: nat, s: Step)
    requires |a| == |b|
    requires s.Next? ==> q <= s.p < |a|
    requires s.Mrm? ==> q <= s.q
    requires forall i :: q <= i < |a| ==> a[i] == b[i]
    ensures Resume(a, s) == Resume(b, s)
    decreases if s.Next? then |a| - s.p else 0
  {
    match s
    case Next(p', x', result', pre') =>
      StepLocal(a, b, q, p', x', result', pre');
      ResumeLocal(a, b, q, StepAt(a, p', x', result', pre'));
    case Mrm(q', x', result') =>
      ModRMLocal(a, b, q', x', result');
    case _ =>
  }

  /** The length decoded at q depends only on the bytes from q on. */
  lemma InsLenLocal(a: seq<Byte>, b: seq<Byte>, q: nat)
    requires |a| == |b|
    requires forall i :: q <= i < |a| ==> a[i] == b[i]
    ensures InsLen(a, q) == InsLen(b, q)
  {
    if q < |a| {
      assert a[q] == b[q];
      ResumeLocal(a, b, q, Next(q, Op1(a[q]), 0, NoPrefixes));
    }
  }

  // ---------------------------------------------------------------------------
  // Near branches

  /**
   * Without a prefix, CALL/JMP rel32 (E8/E9) decode to 5 bytes and Jcc rel32
   * (0F 80 .. 0F 8F) to 6: the opcode bytes plus a 4-byte displacement.
   */
  lemma NearBranchLength(code: seq<Byte>, p: nat)
    requires p + 1 < |code|
    ensures code[p] == 0xe8 || code[p] == 0xe9 ==> InsLen(code, p) == Some(5)
    ensures code[p] == 0x0f && code[p + 1] / 16 == 8 ==> InsLen(code, p) == Some(6)
  {
    if code[p] == 0xe8 || code[p] == 0xe9 {
      assert Op1(code[p]) == 0x45;
      RunStep(code, p, 0x45, 0, NoPrefixes);
    }
    if code[p] == 0x0f && code[p + 1] / 16 == 8 {
      assert Op1(code[p]) == 0x20;
      assert Op2(code[p + 1]) == 0x46;
      RunStep(code, p, 0x20, 0, NoPrefixes);
      RunStep(code, p + 1, 0x46, 0, NoPrefixes);
    }
  }

  // ---------------------------------------------------------------------------
  // Prefixes

  /** A pass that ended in s, with k more bytes already counted. */
  function ShiftStep(s: Step, k: int): Step
  {
    match s
    case Done(n) => Done(n + k)
    case Next(p, x, r, pre) => Next(p, x, r + k, pre)
    case Mrm(q, x, r) => Mrm(q, x, r + k)
    case Stop => Stop
  }

  lemma StepShift(code: seq<Byte>, p: nat, x: Byte, result: int, k: int, pre: Prefixes)
    requires p < |code|
    ensures StepAt(code, p, x, result + k, pre) == ShiftStep(StepAt(code, p, x, result, pre), k)
  {
  }

  lemma {:induction false} ResumeShift(code: seq<Byte>, s: Step, k: int)
    requires s.Next? ==> s.p < |code|
    ensures Resume(code, ShiftStep(s, k)) == Shift(Resume(code, s), k)
    decreases if s.Next? then |code| - s.p else 0
  {
    match s
    case Next(p', x', result', pre') =>
      StepShift(code, p', x', result', k, pre');
      ResumeShift(code, StepAt(code, p', x', result', pre'), k);
    case _ =>
  }

  /** Adding k to the running length adds k to the decoded length. */
  lemma RunShift(code: seq<Byte>, p: nat, x: Byte, result: int, k: int, pre: Prefixes)
    requires p < |code|
    ensures Run(code, p, x, result + k, pre) == Shift(Run(code, p, x, result, pre), k)
  {
    StepShift(code, p, x, result, k, pre);
    ResumeShift(code, StepAt(code, p, x, result, pre), k);
  }

  /** A prefix byte is counted and its flags kept; decoding goes on at the next byte. */
  lemma PrefixStep(code: seq<Byte>, p: nat, x: Byte, result: int, pre: Prefixes)
    requires p + 1 < |code| && Class(x) == 1
    ensures Run(code, p, x, result, pre) == Run(code, p + 1, Op1(code[p + 1]), result + 1, AddFlags(pre, x))
  {
    RunStep(code, p, x, result, pre);
  }

  /** The same, with the prefix's byte counted outside the rest of the instruction. */
  lemma PrefixShift(code: seq<Byte>, p: nat, x: Byte, pre: Prefixes)
    requires p + 1 < |code| && Class(x) == 1
    ensures Run(code, p, x, 0, pre) == Shift(Run(code, p + 1, Op1(code[p + 1]), 0, AddFlags(pre, x)), 1)
  {
    PrefixStep(code, p, x, 0, pre);
    RunShift(code, p + 1, Op1(code[p + 1]), 0, 1, AddFlags(pre, x));
  }

  /** The prefixes that change no operand size in 64-bit mode. */
  predicate IsNeutralPrefix(b: Byte)
  {
    IsPrefixByte(b) && b != 0x66 && !(0x48 <= b <= 0x4f)
  }

  /** A neutral prefix's entry is class 1 with neither flag 2 nor flag 4. */
  lemma NeutralPrefixEntry(b: Byte)
    requires IsNeutralPrefix(b)
    ensures Class(Op1(b)) == 1 && AddFlags(NoPrefixes, Op1(b)) == NoPrefixes
  {
    assert Op1(b) == 0x10 || Op1(b) == 0x11;
  }

  /**
   * A segment override, 67, REX without W, LOCK or REP adds exactly its own
   * byte to the length of what follows.
   */
  lemma NeutralPrefix(code: seq<Byte>, p: nat)
    requires p + 1 < |code| && IsNeutralPrefix(code[p])
    ensures InsLen(code, p) == Shift(InsLen(code, p + 1), 1)
  {
    NeutralPrefixEntry(code[p]);
    PrefixShift(code, p, Op1(code[p]), NoPrefixes);
  }



  /**
   * The operand-size prefix 66 adds its own byte, and in front of an opcode
   * whose immediate is operand-sized (class 4 or 8) also shrinks that
   * immediate from 4 bytes to 2.
   */
  lemma OperandSizePrefix(code: seq<Byte>, p: nat)
    requires p + 1 < |code| && code[p] == 0x66
    requires Class(Op1(code[p + 1])) in {4, 5, 8, 9}
    ensures Class(Op1(code[p + 1])) in {4, 8} ==> InsLen(code, p) == Shift(InsLen(code, p + 1), -1)
    ensures Class(Op1(code[p + 1])) in {5, 9} ==> InsLen(code, p) == Shift(InsLen(code, p + 1), 1)
  {
    assert Op1(code[p]) == 0x12;
    PrefixStep(code, p, 0x12, 0, NoPrefixes);
    OperandSizeRun(code, p + 1, Op1(code[p + 1]));
  }

  /** The decoder from an entry of class 4, 5, 8 or 9 with the 66 flag set and one prefix byte counted. */
  lemma OperandSizeRun(code: seq<Byte>, p: nat, x: Byte)
    requires p < |code| && Class(x) in {4, 5, 8, 9}
    ensures Class(x) in {4, 8} ==> Run(code, p, x, 1, Prefixes(true, false)) == Shift(Run(code, p, x, 0, NoPrefixes), -1)
    ensures Class(x) in {5, 9} ==> Run(code, p, x, 1, Prefixes(true, false)) == Shift(Run(code, p, x, 0, NoPrefixes), 1)
  {
    RunStep(code, p, x, 1, Prefixes(true, false));
    RunStep(code, p, x, 0, NoPrefixes);
  }

  /** REX.W in front of MOV r64, imm64 (B8-BF) adds its own byte and 4 more immediate bytes. */
  lemma RexWImmediate(code: seq<Byte>, p: nat)
    requires p + 1 < |code| && 0x48 <= code[p] <= 0x4f && 0xb8 <= code[p + 1] <= 0xbf
    ensures InsLen(code, p + 1) == Some(5)
    ensures InsLen(code, p) == Some(10)
  {
    assert Op1(code[p]) == 0x14;
    assert Op1(code[p + 1]) == 0x05;
    PrefixStep(code, p, 0x14, 0, NoPrefixes);
    RunStep(code, p + 1, 0x05, 1, Prefixes(false, true));
    RunStep(code, p + 1, 0x05, 0, NoPrefixes);
  }

  // ---------------------------------------------------------------------------
  // ModR/M, SIB and displacement

  /**
   * The bytes that follow a ModR/M byte in 64-bit mode: a SIB byte when
   * mod != 3 and rm = 4; a 1-byte displacement for mod = 1, a 4-byte one for
   * mod = 2, for RIP-relative mod = 0 / rm = 5 (which has no SIB), and for a
   * SIB whose base is 5 under mod = 0.
   */
  function AddressingBytes(modrm: Byte, sib: Byte): int
  {
    var mod := modrm / 64;
    var rm := modrm % 8;
    var sibBytes := if mod != 3 && rm == 4 then 1 else 0;
    var dispBytes :=
      if mod == 1 then 1
      else if mod == 2 then 4
      else if mod == 0 && rm == 5 then 4
      else if mod == 0 && rm == 4 && sib % 8 == 5 then 4
      else 0;
    sibBytes + dispBytes
  }

  /** The `mrm` block adds the base length and the addressing bytes of the ModR/M byte at q + 1. */
  lemma ModRMAddressing(code: seq<Byte>, q: nat, x: Byte, result: int)
    requires q + 2 < |code|
    ensures ModRM(code, q, x, result) == Some(result + Base(x) + AddressingBytes(code[q + 1], code[q + 2]))
  {
  }

  /** An unprefixed ModR/M opcode decodes to its base length plus its addressing bytes. */
  lemma ModRMLength(code: seq<Byte>, p: nat)
    requires p + 2 < |code| && Class(Op1(code[p])) == 9
    ensures InsLen(code, p) == Some(Base(Op1(code[p])) + AddressingBytes(code[p + 1], code[p + 2]))
  {
    ModRMRun(code, p, Op1(code[p]));
  }

  lemma ModRMRun(code: seq<Byte>, p: nat, x: Byte)
    requires p + 2 < |code| && Class(x) == 9
    ensures Run(code, p, x, 0, NoPrefixes) == Some(Base(x) + AddressingBytes(code[p + 1], code[p + 2]))
  {
    RunStep(code, p, x, 0, NoPrefixes);
    ModRMAddressing(code, p, x, 0);
  }

  /** Group 3 (F6/F7): TEST carries an imm8/imm32 only when ModR/M.reg is 0. */
  lemma Group3Length(code: seq<Byte>, p: nat)
    requires p + 2 < |code| && (code[p] == 0xf6 || code[p] == 0xf7)
    ensures var imm := if code[p + 1] / 8 % 8 != 0 then 0 else if code[p] == 0xf6 then 1 else 4;
      InsLen(code, p) == Some(2 + imm + AddressingBytes(code[p + 1], code[p + 2]))
  {
    var x := if code[p] == 0xf6 then 0x63 else 0x66;
    assert Op1(code[p]) == x;
    RunStep(code, p, x, 0, NoPrefixes);
    ModRMAddressing(code, p, if code[p + 1] / 8 % 8 != 0 then 2 else x, 0);
  }

  /** 66 F7 /0 (TEST r/m16, imm16) carries a 2-byte immediate. */
  lemma Group3OperandSize(code: seq<Byte>, p: nat)
    requires p + 3 < |code| && code[p] == 0x66 && code[p + 1] == 0xf7 && code[p + 2] / 8 % 8 == 0
    ensures InsLen(code, p) == Some(5 + AddressingBytes(code[p + 2], code[p + 3]))
  {
    assert Op1(code[p]) == 0x12 && Op1(code[p + 1]) == 0x66;
    PrefixStep(code, p, 0x12, 0, NoPrefixes);
    RunStep(code, p + 1, 0x66, 1, Prefixes(true, false));
    ModRMAddressing(code, p + 1, 4, 1);
  }

  /** A two-byte VEX (C5) instruction of the 0F map is its payload byte, the opcode and the 0F-map length. */
  lemma VexTwoByteLength(code: seq<Byte>, p: nat)
    requires p + 4 < |code| && code[p] == 0xc5 && Class(Op2(code[p + 2])) == 9
    ensures InsLen(code, p) == Some(1 + Base(Op2(code[p + 2])) + AddressingBytes(code[p + 3], code[p + 4]))
  {
    var y := Op2(code[p + 2]);
    assert Op1(code[p]) == 0x71;
    RunStep(code, p, 0x71, 0, NoPrefixes);
    RunStep(code, p + 2, y, 1, NoPrefixes);
    ModRMAddressing(code, p + 2, y, 1);
  }

  /** A three-byte VEX (C4) selecting the 0F 38 or 0F 3A map is 5 bytes plus addressing, and one more immediate byte for 0F 3A. */
  lemma VexThreeByteLength(code: seq<Byte>, p: nat)
    requires p + 5 < |code| && code[p] == 0xc4 && code[p + 1] % 32 in {2, 3}
    ensures InsLen(code, p) == Some(3 + code[p + 1] % 32 + AddressingBytes(code[p + 4], code[p + 5]))
  {
    assert Op1(code[p]) == 0x70;
    RunStep(code, p, 0x70, 0, NoPrefixes);
    ModRMAddressing(code, p + 3, code[p + 1] % 32, 3);
  }

  // ---------------------------------------------------------------------------
  // The decoder as the source runs it

  /** The `mrm` block of `_asm_x86_inslen`, entered with p at q. */
  method AsmModRM(code: array<Byte>, q: nat, x: Byte, result: int) returns (len: Option<int>)
    ensures len == ModRM(code[..], q, x, result)
  {
    if q + 1 >= code.Length { return None; }
    var r := result + Base(x);
    var m := code[q + 1];
    var mod := m / 64;
    if mod == 0 {
      if m % 8 == 5 {
        return Some(r + 4);
      }
    } else if mod == 1 {
      r := r + 1;
    } else if mod == 2 {
      r := r + 4;
    } else {
      return Some(r);
    }
    if m % 8 == 4 {
      r := r + 1;
      if m < 0x40 {
        if q + 2 >= code.Length { return None; }
        if code[q + 2] % 8 == 5 {
          r := r + 4;
        }
      }
    }
    return Some(r);
  }

  /** One pass of the `for (;;)` loop of `_asm_x86_inslen`: the `switch` on the class of x. */
  method AsmPass(code: array<Byte>, p: nat, x: Byte, result: int, pre: Prefixes) returns (s: Step)
    requires p < code.Length
    ensures s == StepAt(code[..], p, x, result, pre)
  {
    var cls := x / 16;
    if cls == 0 {
      return Done(result + x + RexWBytes(pre));
    } else if cls == 1 {
      if p + 1 >= code.Length { return Stop; }
      return Next(p + 1, Op1(code[p + 1]), result + 1, AddFlags(pre, x));
    } else if cls == 2 {
      if p + 1 >= code.Length { return Stop; }
      return Next(p + 1, Op2(code[p + 1]), result, pre);
    } else if cls == 3 {
      return Mrm(p + 1, x, result);
    } else if cls == 4 {
      return Done(result - OpsizeBytes(pre) + Base(x));
    } else if cls == 5 {
      return Done(result + Base(x));
    } else if cls == 6 {
      if p + 1 >= code.Length { return Stop; }
      var x' := x;
      if code[p + 1] / 8 % 8 != 0 {
        x' := 2;
      } else if pre.opsize && x == 0x66 {
        x' := 4;
      }
      return Mrm(p, x', result);
    } else if cls == 7 {
      var q := p;
      var r := result;
      if x == 0x70 {
        if q + 1 >= code.Length { return Stop; }
        q := q + 1;
        var mmmmm := code[q] % 32;
        r := r + 1;
        if mmmmm >= 2 {
          return Mrm(q + 2, mmmmm, r + 2);
        }
      }
      if q + 2 >= code.Length { return Stop; }
      return Next(q + 2, Op2(code[q + 2]), r + 1, pre);
    } else if cls == 8 {
      return Mrm(p, x, result - OpsizeBytes(pre));
    } else if cls == 9 {
      return Mrm(p, x, result);
    } else {
      return Stop;
    }
  }

  /** `_asm_x86_inslen`: the loop over the state (p, x, result, prefixes), leaving for the `mrm` block. */
  method AsmX86InsLen(code: array<Byte>, start: nat) returns (len: Option<int>)
    ensures len == InsLen(code[..], start)
  {
    if start >= code.Length {
      return None;
    }
    var p := start;
    var x := Op1(code[p]);
    var result := 0;
    var pre := NoPrefixes;
    while true
      invariant p < code.Length
      invariant Run(code[..], p, x, result, pre) == InsLen(code[..], start)
      decreases code.Length - p
    {
      var s := AsmPass(code, p, x, result, pre);
      RunStep(code[..], p, x, result, pre);
      match s
      case Done(n) =>
        return Some(n);
      case Next(p', x', result', pre') =>
        p, x, result, pre := p', x', result', pre';
      case Mrm(q, x', result') =>
        len := AsmModRM(code, q, x', result');
        return;
      case Stop =>
        return None;
    }
  }
}
