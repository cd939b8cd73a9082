/**
 * The AArch64 variant of `ir_patch_code`: a backward scan over the 32-bit
 * instruction words of a code buffer that rewrites the immediate of every
 * B, B.cond, CBZ, CBNZ, TBZ and TBNZ whose branch target is `from` so that
 * it targets `to`, relaying an out-of-range short branch through the first
 * B it patched (the veneer).
 *
 * Words are integers in [0, 2^32); each mask of the source is written as
 * division and remainder by the matching power of two. Addresses are
 * word addresses (byte address / 4): the instruction at index i of a buffer
 * whose first word is at `base` lives at base + i, and the distance the
 * source computes by subtracting two `uint32_t *` pointers is the
 * difference of two word addresses.
 */
module Arm64Patch {
  import opened Wrappers

  const TwoTo32: int := 0x1_0000_0000

  /** A 32-bit instruction word. */
  type Word = w: int | 0 <= w < TwoTo32

  /** The branches the scan rewrites, by the width of their immediate field. */
  datatype Kind =
    | Imm26   // B: imm26 in bits 0..25
    | Imm19   // B.cond, CBZ, CBNZ: imm19 in bits 5..23
    | Imm14   // TBZ, TBNZ: imm14 in bits 5..18

  /**
   * The kind of branch a word encodes, checked in the source's order:
   * bits 26..31 == 000101 (mask 0xfc000000) is B; bits 24..31 == 0x54
   * (mask 0xff000000) is B.cond and bits 25..30 == 011010 (mask 0x7e000000)
   * CBZ/CBNZ; bits 25..30 == 011011 is TBZ/TBNZ.
   */
  function KindOf(ins: Word): Option<Kind>
  {
    if ins / 0x400_0000 == 0x05 then Some(Imm26)
    else if ins / 0x100_0000 == 0x54 || (ins / 0x200_0000) % 0x40 == 0x1a then Some(Imm19)
    else if (ins / 0x200_0000) % 0x40 == 0x1b then Some(Imm14)
    else None
  }

  /** The weight of the lowest bit of the immediate field. */
  function Shift(k: Kind): nat
  {
    if k == Imm26 then 1 else 0x20
  }

  /** 2^(width of the immediate field). */
  function Size(k: Kind): nat
  {
    match k
    case Imm26 => 0x400_0000
    case Imm19 => 0x8_0000
    case Imm14 => 0x4000
  }

  /** The weight of the lowest bit above the immediate field: the bits from there up are kept by a rewrite. */
  function Top(k: Kind): nat
  {
    match k
    case Imm26 => 0x400_0000
    case Imm19 => 0x100_0000
    case Imm14 => 0x8_0000
  }

  /**
   * 2^(number of low field bits the match compares): 25 for B (mask
   * 0x01ffffff, one bit short of the field), the whole field otherwise
   * (masks 0x00ffffe0 and 0x0007ffe0).
   */
  function MatchSize(k: Kind): nat
  {
    if k == Imm26 then 0x200_0000 else Size(k)
  }

  /** The unsigned value of the immediate field. */
  function Field(ins: Word, k: Kind): (f: nat)
    ensures f < Size(k)
  {
    (ins / Shift(k)) % Size(k)
  }

  /** The field read as a two's complement number of words. */
  function Signed(f: int, size: nat): int
  {
    if f < size / 2 then f else f - size
  }

  /** Where the branch at `addr` jumps to. */
  function Target(ins: Word, k: Kind, addr: int): int
  {
    addr + Signed(Field(ins, k), Size(k))
  }

  /**
   * A distance the field can hold: the source's `((delta + half) >> width) != 0`
   * test, negated, with an arithmetic shift of a signed distance.
   */
  predicate Fits(delta: int, k: Kind)
  {
    -(Size(k) / 2) <= delta < Size(k) / 2
  }

  /** The match test: the low compared bits of the field equal those of the distance to `from`. */
  predicate MatchesField(ins: Word, k: Kind, delta: int)
  {
    Field(ins, k) % MatchSize(k) == delta % MatchSize(k)
  }

  /**
   * The word with its immediate field replaced by the low bits of `delta`,
   * every other bit kept (masks 0xfc000000, 0xff00001f and 0xfff8001f).
   */
  function Place(ins: Word, k: Kind, delta: int): Word
  {
    PlaceBound(ins, k, delta % Size(k));
    (ins / Top(k)) * Top(k) + (delta % Size(k)) * Shift(k) + ins % Shift(k)
  }

  lemma PlaceBound(ins: Word, k: Kind, f: int)
    requires 0 <= f < Size(k)
    ensures 0 <= (ins / Top(k)) * Top(k) + f * Shift(k) + ins % Shift(k) < TwoTo32
  {
  }

  // ---------------------------------------------------------------------------
  // One word

  /** The word at `addr` is a branch the scan matches against `from`. */
  predicate Hits(ins: Word, addr: int, from: int)
  {
    KindOf(ins).Some? && MatchesField(ins, KindOf(ins).value, from - addr)
  }

  /**
   * What the scan makes of the word at `addr`, given the veneer address it
   * holds at that point: the word itself when it is not a branch to `from`;
   * the branch pointed at `to` when that distance fits; a short branch
   * pointed at the veneer when that one fits; None when the source aborts.
   */
  function Rewrite(ins: Word, addr: int, from: int, to: int, veneer: Option<int>): Option<Word>
  {
    match KindOf(ins)
    case None => Some(ins)
    case Some(k) =>
      if !MatchesField(ins, k, from - addr) then Some(ins)
      else if Fits(to - addr, k) then Some(Place(ins, k, to - addr))
      else if k == Imm26 || veneer.None? || !Fits(veneer.value - addr, k) then None
      else Some(Place(ins, k, veneer.value - addr))
  }

  // ---------------------------------------------------------------------------
  // Encoding lemmas

  /**
   * A rewrite keeps the kind of branch and every bit outside the immediate
   * field, and the field then holds the low bits of the distance.
   */
  lemma PlaceKeeps(ins: Word, k: Kind, delta: int)
    requires KindOf(ins) == Some(k)
    ensures var w := Place(ins, k, delta);
      && w / Top(k) == ins / Top(k) && w % Shift(k) == ins % Shift(k)
      && Field(w, k) == delta % Size(k)
      && KindOf(w) == Some(k)
  {
    var f := delta % Size(k);
    match k
    case Imm26 => PlaceKeeps26(ins, f);
    case Imm19 => PlaceKeeps19(ins, f);
    case Imm14 => PlaceKeeps14(ins, f);
  }

  lemma PlaceKeeps26(ins: Word, f: nat)
    requires f < 0x400_0000
    ensures var w := (ins / 0x400_0000) * 0x400_0000 + f;
      w / 0x400_0000 == ins / 0x400_0000 && w % 0x400_0000 == f
  {
  }

  lemma PlaceKeeps19(ins: Word, f: nat)
    requires f < 0x8_0000
    ensures var w := (ins / 0x100_0000) * 0x100_0000 + f * 0x20 + ins % 0x20;
      && w / 0x100_0000 == ins / 0x100_0000 && w % 0x20 == ins % 0x20 && (w / 0x20) % 0x8_0000 == f
      && w / 0x200_0000 == ins / 0x200_0000 && w / 0x400_0000 == ins / 0x400_0000
  {
    var w := (ins / 0x100_0000) * 0x100_0000 + f * 0x20 + ins % 0x20;
    SameHigh(w, ins, 0x100_0000);
  }

  lemma PlaceKeeps14(ins: Word, f: nat)
    requires f < 0x4000
    ensures var w := (ins / 0x8_0000) * 0x8_0000 + f * 0x20 + ins % 0x20;
      && w / 0x8_0000 == ins / 0x8_0000 && w % 0x20 == ins % 0x20 && (w / 0x20) % 0x4000 == f
      && w / 0x100_0000 == ins / 0x100_0000 && w / 0x200_0000 == ins / 0x200_0000
      && w / 0x400_0000 == ins / 0x400_0000
  {
    var w := (ins / 0x8_0000) * 0x8_0000 + f * 0x20 + ins % 0x20;
    SameHigh(w, ins, 0x8_0000);
  }

  /** Two words that agree from bit 19 or bit 24 up agree in the bits the kind test reads. */
  lemma SameHigh(w: Word, ins: Word, top: nat)
    requires (top == 0x8_0000 || top == 0x100_0000) && w / top == ins / top
    ensures w / 0x100_0000 == ins / 0x100_0000 && w / 0x200_0000 == ins / 0x200_0000
    ensures w / 0x400_0000 == ins / 0x400_0000
  {
    if top == 0x8_0000 {
      assert w / 0x100_0000 == w / 0x8_0000 / 0x20 && ins / 0x100_0000 == ins / 0x8_0000 / 0x20;
    }
    assert w / 0x200_0000 == w / 0x100_0000 / 2 && ins / 0x200_0000 == ins / 0x100_0000 / 2;
    assert w / 0x400_0000 == w / 0x100_0000 / 4 && ins / 0x400_0000 == ins / 0x100_0000 / 4;
  }

  /** A distance that fits comes back out of the field it is placed in: the rewritten branch jumps `delta` words. */
  lemma PlaceTarget(ins: Word, k: Kind, addr: int, delta: int)
    requires KindOf(ins) == Some(k) && Fits(delta, k)
    ensures Target(Place(ins, k, delta), k, addr) == addr + delta
  {
    PlaceKeeps(ins, k, delta);
    SignedLow(delta, k);
  }

  /**
   * The range check admits exactly the distances that the field can hold: the
   * low bits of a distance, read back as a two's complement number, are the
   * distance exactly when it fits.
   */
  lemma SignedLow(delta: int, k: Kind)
    ensures Fits(delta, k) <==> Signed(delta % Size(k), Size(k)) == delta
  {
    if Fits(delta, k) {
      match k
      case Imm26 =>
      case Imm19 =>
      case Imm14 =>
    }
  }

  /**
   * The match compares targets: a branch matches exactly when its target
   * agrees with `from` in the low compared bits, so every branch to `from`
   * matches, and so does a B whose target lies 2^25 words from it.
   */
  lemma MatchesTarget(ins: Word, k: Kind, addr: int, from: int)
    ensures MatchesField(ins, k, from - addr) <==> (Target(ins, k, addr) - from) % MatchSize(k) == 0
  {
    var f := Field(ins, k);
    var s := Signed(f, Size(k));
    assert s == f || s == f - Size(k);
    match k
    case Imm26 => CongruentMod25(f, s, from - addr);
    case Imm19 => CongruentMod19(f, s, from - addr);
    case Imm14 => CongruentMod14(f, s, from - addr);
  }

  lemma CongruentMod25(f: int, s: int, d: int)
    requires s == f || s == f - 0x400_0000
    ensures f % 0x200_0000 == d % 0x200_0000 <==> (s - d) % 0x200_0000 == 0
  {
  }

  lemma CongruentMod19(f: int, s: int, d: int)
    requires s == f || s == f - 0x8_0000
    ensures f % 0x8_0000 == d % 0x8_0000 <==> (s - d) % 0x8_0000 == 0
  {
  }

  lemma CongruentMod14(f: int, s: int, d: int)
    requires s == f || s == f - 0x4000
    ensures f % 0x4000 == d % 0x4000 <==> (s - d) % 0x4000 == 0
  {
  }

  /**
   * What a rewrite does to a word: a word that is not a branch to `from` is
   * kept; a branch to `from` keeps its kind and every bit outside its
   * immediate, and then jumps to `to` when that distance fits, otherwise to
   * the veneer; the scan aborts exactly when neither fits, or when a B does
   * not reach `to` (a B has no veneer to fall back on).
   */
  lemma RewriteSpec(ins: Word, addr: int, from: int, to: int, veneer: Option<int>)
    ensures !Hits(ins, addr, from) ==> Rewrite(ins, addr, from, to, veneer) == Some(ins)
    ensures Hits(ins, addr, from) ==>
      var k := KindOf(ins).value;
      && (Rewrite(ins, addr, from, to, veneer).None? <==>
            !Fits(to - addr, k) && (k == Imm26 || veneer.None? || !Fits(veneer.value - addr, k)))
      && (Rewrite(ins, addr, from, to, veneer).Some? ==>
            var w := Rewrite(ins, addr, from, to, veneer).value;
            && KindOf(w) == Some(k)
            && w / Top(k) == ins / Top(k) && w % Shift(k) == ins % Shift(k)
            && Target(w, k, addr) == if Fits(to - addr, k) then to else veneer.value)
  {
    if Hits(ins, addr, from) {
      var k := KindOf(ins).value;
      if Fits(to - addr, k) {
        PlaceKeeps(ins, k, to - addr);
        PlaceTarget(ins, k, addr, to - addr);
      } else if k != Imm26 && veneer.Some? && Fits(veneer.value - addr, k) {
        PlaceKeeps(ins, k, veneer.value - addr);
        PlaceTarget(ins, k, addr, veneer.value - addr);
      }
    }
  }

  // ---------------------------------------------------------------------------
  // The scan

  /** The word at index i is a B to `from`. */
  predicate BHits(c: seq<Word>, base: int, from: int, i: nat)
    requires i < |c|
  {
    KindOf(c[i]) == Some(Imm26) && Hits(c[i], base + i, from)
  }

  /**
   * The veneer the downward scan holds once it has visited the words from
   * index k up: the highest B to `from` among them, which the scan met first.
   */
  function Veneer(c: seq<Word>, base: int, from: int, k: nat): (v: Option<nat>)
    requires k <= |c|
    ensures v.Some? ==> k <= v.value < |c| && BHits(c, base, from, v.value)
    ensures v.Some? ==> forall j :: v.value < j < |c| ==> !BHits(c, base, from, j)
    ensures v.None? ==> forall j :: k <= j < |c| ==> !BHits(c, base, from, j)
    decreases |c| - k
  {
    if k == |c| then None
    else
      var above := Veneer(c, base, from, k + 1);
      if above.Some? then above
      else if BHits(c, base, from, k) then Some(k)
      else None
  }

  /** The veneer as the address the source holds. */
  function VeneerAddress(c: seq<Word>, base: int, from: int, k: nat): Option<int>
    requires k <= |c|
  {
    match Veneer(c, base, from, k)
    case None => None
    case Some(j) => Some(base + j)
  }

  /** What the scan makes of the word at index i, or None when it aborts there. */
  function NewWord(c: seq<Word>, base: int, from: int, to: int, i: nat): Option<Word>
    requires i < |c|
  {
    Rewrite(c[i], base + i, from, to, VeneerAddress(c, base, from, i + 1))
  }

  /** How many words from index k up are branches to `from`. */
  function HitCount(c: seq<Word>, base: int, from: int, k: nat): (n: nat)
    requires k <= |c|
    ensures n <= |c| - k
    decreases |c| - k
  {
    if k == |c| then 0
    else (if Hits(c[k], base + k, from) then 1 else 0) + HitCount(c, base, from, k + 1)
  }

  /**
   * A short branch the scan cannot point at `to` is relayed through a B at a
   * higher address, which is itself a branch to `from` and, once the scan
   * has passed it, jumps to `to`.
   */
  lemma VeneerRelay(c: seq<Word>, base: int, from: int, to: int, i: nat)
    requires i < |c| && Hits(c[i], base + i, from) && NewWord(c, base, from, to, i).Some?
    requires !Fits(to - (base + i), KindOf(c[i]).value)
    ensures Veneer(c, base, from, i + 1).Some?
    ensures var v := Veneer(c, base, from, i + 1).value;
      && i < v && BHits(c, base, from, v)
      && Target(NewWord(c, base, from, to, i).value, KindOf(c[i]).value, base + i) == base + v
      && (NewWord(c, base, from, to, v).Some? ==> Target(NewWord(c, base, from, to, v).value, Imm26, base + v) == to)
  {
    RewriteSpec(c[i], base + i, from, to, VeneerAddress(c, base, from, i + 1));
    var v := Veneer(c, base, from, i + 1).value;
    RewriteSpec(c[v], base + v, from, to, VeneerAddress(c, base, from, v + 1));
  }

  /** The veneer and the count after the scan visits index i, from those before it. */
  lemma ScanStep(c: seq<Word>, base: int, from: int, i: nat, p: nat)
    requires p == i + 1 && p <= |c|
    ensures VeneerAddress(c, base, from, i) ==
      if VeneerAddress(c, base, from, p).None? && KindOf(c[i]) == Some(Imm26) && Hits(c[i], base + i, from)
      then Some(base + i) else VeneerAddress(c, base, from, p)
    ensures HitCount(c, base, from, i) == (if Hits(c[i], base + i, from) then 1 else 0) + HitCount(c, base, from, p)
  {
  }

  /** The outcome of a scan: the source aborts, or it rewrote `count` words. */
  datatype Outcome = Aborted | Ok(count: nat)

  /**
   * The body of the AArch64 patch loop at index i: reads the word, and when it
   * is a branch to `from` rewrites it as `Rewrite` says (or reports the
   * abort), taking it as the veneer when it is the first B rewritten.
   */
  method PatchWord(code: array<Word>, base: int, i: nat, from: int, to: int, veneer: Option<int>)
    returns (aborted: bool, hit: bool, veneer': Option<int>)
    requires i < code.Length
    modifies code
    ensures aborted == Rewrite(old(code[i]), base + i, from, to, veneer).None?
    ensures hit == Hits(old(code[i]), base + i, from)
    ensures !aborted ==> code[..] == old(code[..])[i := Rewrite(old(code[i]), base + i, from, to, veneer).value]
    ensures !aborted ==> veneer' == if veneer.None? && KindOf(old(code[i])) == Some(Imm26) && hit then Some(base + i) else veneer
  {
    var ins := code[i];
    var addr := base + i;
    var kind := KindOf(ins);
    aborted, hit, veneer' := false, false, veneer;
    if kind.None? {
      return;
    }
    var k := kind.value;
    if !MatchesField(ins, k, from - addr) {
      return;
    }
    hit := true;
    var delta := to - addr;
    if !Fits(delta, k) {
      if k == Imm26 || veneer.None? {
        aborted := true;
        return;
      }
      delta := veneer.value - addr;
      if !Fits(delta, k) {
        aborted := true;
        return;
      }
    }
    code[i] := Place(ins, k, delta);
    if k == Imm26 && veneer.None? {
      veneer' := Some(addr);
    }
  }

  /**
   * `ir_patch_code` for AArch64: scans the words from the last down to the
   * first and rewrites every branch to `from` as `NewWord` says. It aborts
   * exactly when some word cannot be rewritten; otherwise every word ends as
   * `NewWord` makes it, the count is the number of branches to `from`, and
   * the instruction cache is flushed when that is not zero.
   */
  method PatchCode(code: array<Word>, base: int, from: int, to: int) returns (outcome: Outcome, flushed: bool)
    modifies code
    ensures outcome.Aborted? <==> exists i :: 0 <= i < code.Length && NewWord(old(code[..]), base, from, to, i).None?
    ensures outcome.Ok? ==> outcome.count == HitCount(old(code[..]), base, from, 0)
    ensures outcome.Ok? ==> forall i :: 0 <= i < code.Length ==> NewWord(old(code[..]), base, from, to, i) == Some(code[i])
    ensures flushed == (outcome.Ok? && outcome.count > 0)
  {
    ghost var orig := code[..];
    var veneer: Option<int> := None;
    var count := 0;
    var p := code.Length;
    while p > 0
      invariant 0 <= p <= code.Length
      invariant forall i :: p <= i < code.Length ==> NewWord(orig, base, from, to, i) == Some(code[i])
      invariant forall i :: 0 <= i < p ==> code[i] == orig[i]
      invariant veneer == VeneerAddress(orig, base, from, p)
      invariant count == HitCount(orig, base, from, p)
      decreases p
    {
      var i := p - 1;
      ScanStep(orig, base, from, i, p);
      var aborted, hit;
      aborted, hit, veneer := PatchWord(code, base, i, from, to, veneer);
      if aborted {
        assert NewWord(orig, base, from, to, i).None?;
        return Aborted, false;
      }
      if hit {
        count := count + 1;
      }
      p := i;
    }
    outcome := Ok(count);
    flushed := count > 0;
  }
}
