/**
 * `ir_patch`: retargets the absolute pointers of the jump table that follows
 * the code, then the branches of the code itself, and returns how many it
 * rewrote in all.
 *
 * The table holds `jmp_table_size` pointer-sized slots starting at the first
 * multiple of 8 at or after the end of the code. Here it is a separate array
 * of addresses: slot k of the model is the pointer at byte offset
 * `SlotOffset(size, k)` from the start of the code, which lies past the code,
 * so the two passes touch disjoint memory.
 */
module IrPatch {
  import opened Wrappers
  import X86InsLen
  import X86Patch
  import Arm64Patch

  /** The size of a pointer on both supported targets. */
  const PointerSize: nat := 8

  /** `size` rounded up to a multiple of `PointerSize`. */
  function AlignedSize(size: nat): (a: nat)
    ensures a % PointerSize == 0 && size <= a < size + PointerSize
  {
    (size + PointerSize - 1) / PointerSize * PointerSize
  }

  /** The byte offset, from the start of the code, of jump table slot k. */
  function SlotOffset(size: nat, k: nat): (off: nat)
    ensures size <= off && off % PointerSize == 0
  {
    AlignedSize(size) + PointerSize * k
  }

  /** Distinct slots are distinct, non-overlapping, pointer-sized cells after the code. */
  lemma SlotsDisjoint(size: nat, j: nat, k: nat)
    requires j < k
    ensures SlotOffset(size, j) + PointerSize <= SlotOffset(size, k)
    ensures size <= SlotOffset(size, 0) < size + PointerSize
  {
  }

  // ---------------------------------------------------------------------------
  // The jump table pass

  /** The slots with every `from` replaced by `to`. */
  function Replace(s: seq<int>, from: int, to: int): (r: seq<int>)
    ensures |r| == |s|
    ensures forall k :: 0 <= k < |s| ==> r[k] == if s[k] == from then to else s[k]
  {
    if s == [] then []
    else
      var last := |s| - 1;
      Replace(s[..last], from, to) + [if s[last] == from then to else s[last]]
  }

  /** How many slots hold x. */
  function Occurrences(s: seq<int>, x: int): (n: nat)
    ensures n <= |s|
  {
    if s == [] then 0
    else
      var last := |s| - 1;
      Occurrences(s[..last], x) + (if s[last] == x then 1 else 0)
  }

  /**
   * When `from` and `to` differ, no `from` is left after the replacement,
   * and the slots holding `to` are those that held either.
   */
  lemma {:induction false} ReplaceCounts(s: seq<int>, from: int, to: int)
    requires from != to
    ensures Occurrences(Replace(s, from, to), from) == 0
    ensures Occurrences(Replace(s, from, to), to) == Occurrences(s, to) + Occurrences(s, from)
  {
    if s != [] {
      var last := |s| - 1;
      var r := Replace(s, from, to);
      ReplaceCounts(s[..last], from, to);
      assert r[..last] == Replace(s[..last], from, to);
    }
  }

  /**
   * The jump table loop of `ir_patch`: visits exactly the first n slots,
   * overwrites each one that holds `from` with `to`, leaves the others and
   * every slot past n alone, and returns how many it overwrote.
   */
  method PatchTable(slots: array<int>, n: nat, from: int, to: int) returns (count: nat)
    requires n <= slots.Length
    modifies slots
    ensures slots[..] == Replace(old(slots[..n]), from, to) + old(slots[n..])
    ensures count == Occurrences(old(slots[..n]), from)
  {
    ghost var orig := slots[..];
    count := 0;
    if n != 0 {
      var k := 0;
      var left := n;
      while true
        invariant k < n && left == n - k
        invariant slots[..k] == Replace(orig[..k], from, to) && slots[k..] == orig[k..]
        invariant count == Occurrences(orig[..k], from)
        decreases left
      {
        assert orig[..k + 1][..k] == orig[..k];
        assert slots[k] == orig[k];
        if slots[k] == from {
          slots[k] := to;
          count := count + 1;
        }
        k := k + 1;
        left := left - 1;
        if left == 0 {
          break;
        }
      }
      assert slots[..] == slots[..n] + slots[n..];
    } else {
      assert orig[..n] == [];
    }
    assert orig[..n] == old(slots[..n]);
  }

  // ---------------------------------------------------------------------------
  // `ir_patch`, per target

  /**
   * `ir_patch` on x64: the jump table pass, then the code pass. The result is
   * the sum of both counts; the instruction cache is flushed only when the
   * code pass rewrote something.
   */
  method PatchX64(code: array<X86InsLen.Byte>, base: int, slots: array<int>, n: nat, from: int, to: int)
    returns (total: nat, flushed: bool)
    requires n <= slots.Length && X86Patch.Walk(code[..], base, from, 0).Some?
    modifies code, slots
    ensures slots[..] == Replace(old(slots[..n]), from, to) + old(slots[n..])
    ensures X86Patch.Patched(old(code[..]), base, from, to) == Some(code[..])
    ensures X86Patch.PatchCount(old(code[..]), base, from).Some?
    ensures var c := X86Patch.PatchCount(old(code[..]), base, from).value;
      total == Occurrences(old(slots[..n]), from) + c && flushed == (c > 0)
  {
    var tableCount := PatchTable(slots, n, from, to);
    var codeCount, codeFlushed := X86Patch.PatchCode(code, base, from, to);
    total := tableCount + codeCount;
    flushed := codeFlushed;
  }

  /**
   * `ir_patch` on AArch64, with byte addresses: the code starts at `base`, and
   * `base`, `from` and `to` are word aligned. The jump table pass runs first;
   * the code pass then aborts, or the result is the sum of both counts and the
   * instruction cache is flushed only when the code pass rewrote something.
   */
  method PatchArm64(code: array<Arm64Patch.Word>, base: int, slots: array<int>, n: nat, from: int, to: int)
    returns (outcome: Arm64Patch.Outcome, flushed: bool)
    requires n <= slots.Length && base % 4 == 0 && from % 4 == 0 && to % 4 == 0
    modifies code, slots
    ensures slots[..] == Replace(old(slots[..n]), from, to) + old(slots[n..])
    ensures outcome.Aborted? <==>
      exists i :: 0 <= i < code.Length && Arm64Patch.NewWord(old(code[..]), base / 4, from / 4, to / 4, i).None?
    ensures outcome.Ok? ==>
      && outcome.count == Occurrences(old(slots[..n]), from) + Arm64Patch.HitCount(old(code[..]), base / 4, from / 4, 0)
      && (forall i :: 0 <= i < code.Length ==> Arm64Patch.NewWord(old(code[..]), base / 4, from / 4, to / 4, i) == Some(code[i]))
      && flushed == (Arm64Patch.HitCount(old(code[..]), base / 4, from / 4, 0) > 0)
  {
    var tableCount := PatchTable(slots, n, from, to);
    var codeOutcome, codeFlushed := Arm64Patch.PatchCode(code, base / 4, from / 4, to / 4);
    match codeOutcome
    case Aborted =>
      outcome, flushed := Arm64Patch.Aborted, false;
    case Ok(codeCount) =>
      outcome, flushed := Arm64Patch.Ok(tableCount + codeCount), codeFlushed;
  }
}
