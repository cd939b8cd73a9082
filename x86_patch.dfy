/**
 * Branch patching on x64 code (`ir_patch_code`, x86 variant).
 *
 * The patcher walks the code from its first byte, one decoded instruction at
 * a time, and looks at every instruction that starts at least 6 bytes before
 * the end of the buffer. A near conditional jump (0F 80 .. 0F 8F, rel32 at
 * offset 2) or a near jump (E9, rel32 at offset 1) whose target is `from` gets
 * its rel32 field rewritten so that it targets `to`.
 *
 * Positions are indices into the buffer; `base` is the address of its first
 * byte. Addresses are unbounded integers. The rel32 field is a little-endian
 * two's-complement 32-bit value, relative to the end of the instruction.
 */
module X86Patch {
  import opened Wrappers
  import opened X86InsLen

  const TwoTo32: int := 0x1_0000_0000

  /** The unsigned value of a little-endian byte string. */
  function LeValue(bytes: seq<Byte>): (v: nat)
    ensures v < Pow256(|bytes|)
  {
    if bytes == [] then 0 else bytes[0] + 0x100 * LeValue(bytes[1..])
  }

  /** Byte k of v, counting from the least significant (of v's two's complement form when v is negative). */
  function ByteOf(v: int, k: nat): Byte
    decreases k
  {
    if k == 0 then v % 0x100 else ByteOf(v / 0x100, k - 1)
  }

  /** The n low bytes of v, least significant first (v truncated to 8n bits). */
  function LeBytes(v: int, n: nat): (bytes: seq<Byte>)
    ensures |bytes| == n
  {
    if n == 0 then [] else LeBytes(v, n - 1) + [ByteOf(v, n - 1)]
  }

  function Pow256(n: nat): (p: nat)
    ensures p >= 1
  {
    if n == 0 then 1 else 0x100 * Pow256(n - 1)
  }

  /** The unsigned value of the four bytes at i. */
  function U32At(code: seq<Byte>, i: nat): (u: int)
    requires i + 4 <= |code|
    ensures 0 <= u < TwoTo32
  {
    assert Pow256(4) == TwoTo32;
    LeValue(code[i..i + 4])
  }

  /** An unsigned 32-bit value read as two's complement. */
  function Signed32(u: int): (v: int)
    requires 0 <= u < TwoTo32
    ensures -0x8000_0000 <= v < 0x8000_0000
    ensures (v - u) % TwoTo32 == 0
  {
    if u < 0x8000_0000 then u else u - TwoTo32
  }

  /** The signed 32-bit displacement stored at i. */
  function Disp32(code: seq<Byte>, i: nat): int
    requires i + 4 <= |code|
  {
    Signed32(U32At(code, i))
  }

  /** The four bytes of v truncated to 32 bits, as the patcher stores a rel32 field. */
  function Le32(v: int): (bytes: seq<Byte>)
    ensures |bytes| == 4
  {
    LeBytes(v, 4)
  }

  /** A four-byte string's value, spelt out. */
  lemma LeValue4(s: seq<Byte>)
    requires |s| == 4
    ensures LeValue(s) == s[0] as int + 0x100 * (s[1] as int + 0x100 * (s[2] as int + 0x100 * s[3] as int))
  {
    var s1, s2, s3 := s[1..], s[2..], s[3..];
    assert s1[1..] == s2 && s2[1..] == s3 && s3[1..] == [];
    assert LeValue(s3) == s[3];
    assert LeValue(s2) == s[2] as int + 0x100 * LeValue(s3);
    assert LeValue(s1) == s[1] as int + 0x100 * LeValue(s2);
  }

  /** Le32 spelt out byte by byte. */
  lemma Le32Bytes(v: int)
    ensures Le32(v) == [v % 0x100, v / 0x100 % 0x100, v / 0x100 / 0x100 % 0x100, v / 0x100 / 0x100 / 0x100 % 0x100]
  {
    var w1 := v / 0x100;
    var w2 := w1 / 0x100;
    var w3 := w2 / 0x100;
    assert ByteOf(v, 1) == ByteOf(w1, 0);
    assert ByteOf(v, 2) == ByteOf(w1, 1) == ByteOf(w2, 0);
    assert ByteOf(v, 3) == ByteOf(w1, 2) == ByteOf(w2, 1) == ByteOf(w3, 0);
    assert LeBytes(v, 2) == LeBytes(v, 1) + [ByteOf(v, 1)];
    assert LeBytes(v, 3) == LeBytes(v, 2) + [ByteOf(v, 2)];
  }

  /** Splitting x into its low byte and the rest. */
  lemma ByteSplit(x: int, lo: int, hi: int)
    requires 0 <= lo < 0x100 && x == lo + 0x100 * hi
    ensures x % 0x100 == lo && x / 0x100 == hi
  {
  }

  /** The four low bytes of v, weighted by position, make up v modulo 2^32. */
  lemma LowBytesValue(v: int)
    ensures v % 0x100 + 0x100 * (v / 0x100 % 0x100 + 0x100 * (v / 0x100 / 0x100 % 0x100 + 0x100 * (v / 0x100 / 0x100 / 0x100 % 0x100)))
      == v % TwoTo32
  {
    var u1 := v / 0x100;
    var u2 := u1 / 0x100;
    var u3 := u2 / 0x100;
    assert v == v % 0x100 + 0x100 * u1;
    assert u1 == u1 % 0x100 + 0x100 * u2;
    assert u2 == u2 % 0x100 + 0x100 * u3;
    assert u3 == u3 % 0x100 + 0x100 * (u3 / 0x100);
  }

  /** Reading a 32-bit value as two's complement gives back any value congruent to it, exactly when that value fits. */
  lemma Signed32Congruent(u: int, v: int)
    requires u == v % TwoTo32
    ensures (Signed32(u) - v) % TwoTo32 == 0
    ensures -0x8000_0000 <= v < 0x8000_0000 ==> Signed32(u) == v
  {
    var k := v / TwoTo32;
    assert v == u + TwoTo32 * k;
    if u < 0x8000_0000 {
      assert Signed32(u) - v == TwoTo32 * -k;
    } else {
      assert Signed32(u) - v == TwoTo32 * (-k - 1);
    }
  }

  /** Writing a value and reading it back gives the value modulo 2^32, and the value itself when it fits. */
  lemma Le32Decode(v: int)
    ensures U32At(Le32(v), 0) == v % TwoTo32
    ensures (Disp32(Le32(v), 0) - v) % TwoTo32 == 0
    ensures -0x8000_0000 <= v < 0x8000_0000 ==> Disp32(Le32(v), 0) == v
  {
    Le32Bytes(v);
    LeValue4(Le32(v));
    assert Le32(v)[0..4] == Le32(v);
    LowBytesValue(v);
    Signed32Congruent(U32At(Le32(v), 0), v);
  }

  /** Writing the value of four bytes gives those bytes back. */
  lemma Le32OfValue(b0: Byte, b1: Byte, b2: Byte, b3: Byte)
    ensures Le32(b0 + 0x100 * (b1 + 0x100 * (b2 + 0x100 * b3))) == [b0, b1, b2, b3]
  {
    var u2 := b2 + 0x100 * b3;
    var u1 := b1 + 0x100 * u2;
    var u := b0 + 0x100 * u1;
    ByteSplit(u, b0, u1);
    ByteSplit(u1, b1, u2);
    ByteSplit(u2, b2, b3);
    Le32Bytes(u);
  }

  /** Le32 only sees its argument modulo 2^32. */
  lemma Le32Wrap(v: int)
    ensures Le32(v - TwoTo32) == Le32(v)
  {
    Le32Bytes(v);
    Le32Bytes(v - TwoTo32);
    var w := v - TwoTo32;
    assert w / 0x100 == v / 0x100 - 0x100_0000;
    assert w / 0x100 / 0x100 == v / 0x100 / 0x100 - 0x1_0000;
    assert w / 0x100 / 0x100 / 0x100 == v / 0x100 / 0x100 / 0x100 - 0x100;
  }

  /** Reading four bytes and writing the value back gives the same bytes. */
  lemma Le32Encode(code: seq<Byte>, i: nat)
    requires i + 4 <= |code|
    ensures Le32(U32At(code, i)) == code[i..i + 4]
    ensures Le32(Disp32(code, i)) == code[i..i + 4]
  {
    LeValue4(code[i..i + 4]);
    Le32OfValue(code[i], code[i + 1], code[i + 2], code[i + 3]);
    Le32Wrap(U32At(code, i));
  }

  /**
   * The offset of the rel32 field of a near branch at p that the patcher
   * recognises: 2 for Jcc (0F 80 .. 0F 8F), 1 for JMP (E9).
   */
  function NearJump(code: seq<Byte>, p: nat): (field: Option<nat>)
    requires p + 1 < |code|
    ensures field.Some? ==> field.value == 1 || field.value == 2
  {
    if code[p] == 0x0f && code[p + 1] / 16 == 8 then Some(2)
    else if code[p] == 0xe9 then Some(1)
    else None
  }

  /** The address a branch with its rel32 field at offset f from p jumps to: the end of the instruction plus the displacement. */
  function BranchTarget(code: seq<Byte>, base: int, p: nat, f: nat): int
    requires p + f + 4 <= |code|
  {
    base + p + f + 4 + Disp32(code, p + f)
  }

  /** The instruction at p is a near branch to `from`. */
  predicate Matches(code: seq<Byte>, base: int, from: int, p: nat)
    requires p + 5 < |code|
  {
    NearJump(code, p).Some? && BranchTarget(code, base, p, NearJump(code, p).value) == from
  }

  /** The rel32 field at q pointed at `to`: the new displacement is relative to the field's end, truncated to 32 bits. */
  function WriteField(code: seq<Byte>, base: int, to: int, q: nat): (code': seq<Byte>)
    requires q + 4 <= |code|
    ensures |code'| == |code|
  {
    code[..q] + Le32(to - (base + q + 4)) + code[q + 4..]
  }

  /** Writing a field changes the four bytes of the field and nothing else. */
  lemma WriteFieldBytes(code: seq<Byte>, base: int, to: int, q: nat, i: nat)
    requires q + 4 <= |code| && i < |code|
    ensures q <= i < q + 4 ==> WriteField(code, base, to, q)[i] == Le32(to - (base + q + 4))[i - q]
    ensures !(q <= i < q + 4) ==> WriteField(code, base, to, q)[i] == code[i]
  {
  }

  // ---------------------------------------------------------------------------
  // Rewriting a list of fields

  /** Every field lies inside a buffer of the given size. */
  predicate FieldsIn(fields: seq<nat>, size: int)
  {
    forall j :: 0 <= j < |fields| ==> fields[j] + 4 <= size
  }

  /** The fields ascend and do not overlap. */
  predicate Ascending(fields: seq<nat>)
  {
    forall j, k :: 0 <= j < k < |fields| ==> fields[j] + 4 <= fields[k]
  }

  /** i lies in none of the fields. */
  predicate Outside(fields: seq<nat>, i: int)
  {
    forall j :: 0 <= j < |fields| ==> !(fields[j] <= i < fields[j] + 4)
  }

  /** The code with the fields written one after the other, in order. */
  function PatchFields(code: seq<Byte>, base: int, to: int, fields: seq<nat>): (c: seq<Byte>)
    requires FieldsIn(fields, |code|)
    ensures |c| == |code|
    decreases |fields|
  {
    if fields == [] then code
    else
      var last := |fields| - 1;
      WriteField(PatchFields(code, base, to, fields[..last]), base, to, fields[last])
  }

  /** A byte in no field keeps its value. */
  lemma {:induction false} PatchFieldsOutside(code: seq<Byte>, base: int, to: int, fields: seq<nat>, i: nat)
    requires FieldsIn(fields, |code|) && i < |code| && Outside(fields, i)
    ensures PatchFields(code, base, to, fields)[i] == code[i]
    decreases |fields|
  {
    if fields != [] {
      var last := |fields| - 1;
      var prefix := fields[..last];
      assert Outside(prefix, i) by {
        assert forall j :: 0 <= j < |prefix| ==> prefix[j] == fields[j];
      }
      PatchFieldsOutside(code, base, to, prefix, i);
      WriteFieldBytes(PatchFields(code, base, to, prefix), base, to, fields[last], i);
    }
  }

  /** A byte in the j-th field holds its share of that field's new displacement. */
  lemma {:induction false} PatchFieldsInside(code: seq<Byte>, base: int, to: int, fields: seq<nat>, j: nat, i: nat)
    requires FieldsIn(fields, |code|) && Ascending(fields)
    requires j < |fields| && fields[j] <= i < fields[j] + 4
    ensures PatchFields(code, base, to, fields)[i] == Le32(to - (base + fields[j] + 4))[i - fields[j]]
    decreases |fields|
  {
    var last := |fields| - 1;
    var prefix := fields[..last];
    var c := PatchFields(code, base, to, prefix);
    var q := fields[last];
    assert PatchFields(code, base, to, fields) == WriteField(c, base, to, q);
    WriteFieldBytes(c, base, to, q, i);
    if j < last {
      assert forall t :: 0 <= t < |prefix| ==> prefix[t] == fields[t];
      PatchFieldsInside(code, base, to, prefix, j, i);
      assert fields[j] + 4 <= q;
      assert WriteField(c, base, to, q)[i] == c[i];
    }
  }

  /** Every written field now holds the displacement from its end to `to`, modulo 2^32 (exactly, when it fits). */
  lemma PatchFieldsDisp(code: seq<Byte>, base: int, to: int, fields: seq<nat>, j: nat)
    requires FieldsIn(fields, |code|) && Ascending(fields) && j < |fields|
    ensures var c := PatchFields(code, base, to, fields);
      var q := fields[j];
      && (Disp32(c, q) - (to - (base + q + 4))) % TwoTo32 == 0
      && (-0x8000_0000 <= to - (base + q + 4) < 0x8000_0000 ==> Disp32(c, q) == to - (base + q + 4))
  {
    var c := PatchFields(code, base, to, fields);
    var q := fields[j];
    var v := to - (base + q + 4);
    forall i | q <= i < q + 4
      ensures c[i] == Le32(v)[i - q]
    {
      PatchFieldsInside(code, base, to, fields, j, i);
    }
    assert c[q..q + 4] == Le32(v)[0..4];
    Le32Decode(v);
  }

  // ---------------------------------------------------------------------------
  // The walk

  /**
   * The rel32 field of the instruction at p when it is a near branch to
   * `from`: the decoder reads a whole instruction there, and its end plus the
   * displacement stored in the field, which ends with the instruction, is `from`.
   */
  function FieldAt(code: seq<Byte>, base: int, from: int, p: nat): (q: Option<nat>)
    requires p + 5 < |code|
    ensures q.Some? <==>
      && NearJump(code, p).Some? && InsLen(code, p).Some?
      && base + p + InsLen(code, p).value + Disp32(code, p + NearJump(code, p).value) == from
    ensures q.Some? ==> p < q.value && q.value + 4 == p + InsLen(code, p).value
  {
    NearBranchLength(code, p);
    if Matches(code, base, from, p) then Some(p + NearJump(code, p).value) else None
  }

  /** An instruction the walk visits: where it starts, and the rel32 field to rewrite, if any. */
  datatype Visit = Visit(at: nat, field: Option<nat>)

  /**
   * Every visit starts at or after p and more than 5 bytes before the end of
   * a buffer of the given size, and its field lies inside the buffer.
   */
  predicate VisitsIn(visits: seq<Visit>, p: nat, size: int)
  {
    forall j :: 0 <= j < |visits| ==>
      && p <= visits[j].at && visits[j].at + 5 < size
      && (visits[j].field.Some? ==> visits[j].field.value + 4 <= size)
  }

  /**
   * The walk from p: every instruction that starts more than 5 bytes before
   * the end, each start the previous one plus its decoded length, with the
   * field of each near branch to `from`; None when decoding one of them would
   * run past the buffer.
   */
  function Walk(code: seq<Byte>, base: int, from: int, p: nat): (visits: Option<seq<Visit>>)
    ensures visits.Some? ==> VisitsIn(visits.value, p, |code|)
    decreases |code| - p
  {
    if p + 5 >= |code| then Some([])
    else
      match InsLen(code, p)
      case None => None
      case Some(n) =>
        match Walk(code, base, from, p + n)
        case None => None
        case Some(rest) => Some([Visit(p, FieldAt(code, base, from, p))] + rest)
  }

  /** The walk from a start more than 5 bytes before the end: that instruction, then the walk from the next one. */
  lemma WalkStep(code: seq<Byte>, base: int, from: int, p: nat)
    requires p + 5 < |code| && Walk(code, base, from, p).Some?
    ensures InsLen(code, p).Some?
    ensures var n := InsLen(code, p).value;
      && Walk(code, base, from, p + n).Some?
      && Walk(code, base, from, p).value == [Visit(p, FieldAt(code, base, from, p))] + Walk(code, base, from, p + n).value
  {
  }

  /** A branch's rel32 field runs to the end of the branch instruction. */
  lemma FieldAtLength(code: seq<Byte>, base: int, from: int, p: nat)
    requires p + 5 < |code| && FieldAt(code, base, from, p).Some?
    ensures p < FieldAt(code, base, from, p).value
    ensures InsLen(code, p) == Some(FieldAt(code, base, from, p).value + 4 - p)
  {
    NearBranchLength(code, p);
  }

  /**
   * The visits ascend, each field lies after the start of its instruction,
   * and no later visit starts before a field's end.
   */
  predicate Spaced(visits: seq<Visit>)
  {
    && (forall j :: 0 <= j < |visits| && visits[j].field.Some? ==> visits[j].at < visits[j].field.value)
    && (forall j, k :: 0 <= j < k < |visits| ==>
          && visits[j].at < visits[k].at
          && (visits[j].field.Some? ==> visits[j].field.value + 4 <= visits[k].at))
  }

  /** Spacing extends to a visit placed before a spaced list that starts after it (and after its field). */
  lemma SpacedCons(v: Visit, rest: seq<Visit>, next: nat)
    requires Spaced(rest) && forall k :: 0 <= k < |rest| ==> next <= rest[k].at
    requires v.at < next && (v.field.Some? ==> v.at < v.field.value && v.field.value + 4 <= next)
    ensures Spaced([v] + rest)
  {
    var vs := [v] + rest;
    forall j, k | 0 <= j < k < |vs|
      ensures vs[j].at < vs[k].at && (vs[j].field.Some? ==> vs[j].field.value + 4 <= vs[k].at)
    {
      assert vs[k] == rest[k - 1];
      if j > 0 {
        assert vs[j] == rest[j - 1];
      }
    }
    forall j | 0 <= j < |vs| && vs[j].field.Some?
      ensures vs[j].at < vs[j].field.value
    {
      if j > 0 {
        assert vs[j] == rest[j - 1];
      }
    }
  }

  /** The walk visits ascending starts, and never one inside the rel32 field of a branch it visited. */
  lemma {:induction false} WalkSpaced(code: seq<Byte>, base: int, from: int, p: nat)
    requires Walk(code, base, from, p).Some?
    ensures Spaced(Walk(code, base, from, p).value)
    decreases |code| - p
  {
    if p + 5 < |code| {
      WalkStep(code, base, from, p);
      var n := InsLen(code, p).value;
      WalkSpaced(code, base, from, p + n);
      var v := Visit(p, FieldAt(code, base, from, p));
      if v.field.Some? {
        FieldAtLength(code, base, from, p);
      }
      SpacedCons(v, Walk(code, base, from, p + n).value, p + n);
    }
  }

  /** Every visit records the field of the instruction it visits exactly when that is a near branch to `from`. */
  lemma {:induction false} WalkFields(code: seq<Byte>, base: int, from: int, p: nat, j: nat)
    requires Walk(code, base, from, p).Some? && j < |Walk(code, base, from, p).value|
    ensures var v := Walk(code, base, from, p).value[j];
      v.field == FieldAt(code, base, from, v.at)
    decreases |code| - p
  {
    WalkStep(code, base, from, p);
    if j > 0 {
      var n := InsLen(code, p).value;
      WalkFields(code, base, from, p + n, j - 1);
    }
  }

  /** The fields recorded by the visits, in order. */
  function Fields(visits: seq<Visit>): (fields: seq<nat>)
    ensures |fields| <= |visits|
  {
    if visits == [] then []
    else
      var last := |visits| - 1;
      Fields(visits[..last]) + (if visits[last].field.Some? then [visits[last].field.value] else [])
  }

  /** The fields recorded by two runs of visits, one after the other. */
  lemma {:induction false} FieldsAppend(a: seq<Visit>, b: seq<Visit>)
    ensures Fields(a + b) == Fields(a) + Fields(b)
    decreases |b|
  {
    if b == [] {
      assert a + b == a;
    } else {
      var last := |b| - 1;
      FieldsAppend(a, b[..last]);
      assert (a + b)[..|a + b| - 1] == a + b[..last];
    }
  }

  /** Every recorded field ends at or before b when every visit's field does. */
  lemma {:induction false} FieldsBelow(visits: seq<Visit>, b: int)
    requires forall j :: 0 <= j < |visits| && visits[j].field.Some? ==> visits[j].field.value + 4 <= b
    ensures forall t :: 0 <= t < |Fields(visits)| ==> Fields(visits)[t] + 4 <= b
    decreases |visits|
  {
    if visits != [] {
      var last := |visits| - 1;
      assert forall j :: 0 <= j < last ==> visits[..last][j] == visits[j];
      FieldsBelow(visits[..last], b);
    }
  }

  /** q is a recorded field exactly when some visit records it. */
  lemma {:induction false} FieldsMember(visits: seq<Visit>, q: nat)
    ensures q in Fields(visits) <==> exists j :: 0 <= j < |visits| && visits[j].field == Some(q)
    decreases |visits|
  {
    if visits != [] {
      var last := |visits| - 1;
      var prefix := visits[..last];
      FieldsMember(prefix, q);
      if q in Fields(prefix) {
        var j :| 0 <= j < |prefix| && prefix[j].field == Some(q);
        assert visits[j].field == Some(q);
      }
      if j :| 0 <= j < |visits| && visits[j].field == Some(q) {
        if j < last {
          assert prefix[j].field == Some(q);
        }
      }
    }
  }

  /** The recorded fields of spaced visits ascend without overlapping, inside the buffer. */
  lemma {:induction false} FieldsAscending(visits: seq<Visit>, size: int)
    requires Spaced(visits) && VisitsIn(visits, 0, size)
    ensures Ascending(Fields(visits)) && FieldsIn(Fields(visits), size)
    decreases |visits|
  {
    if visits != [] {
      var last := |visits| - 1;
      var prefix := visits[..last];
      assert forall j :: 0 <= j < last ==> prefix[j] == visits[j];
      FieldsAscending(prefix, size);
      FieldsBelow(prefix, visits[last].at);
    }
  }

  /** A byte outside the fields of two lists is outside the fields of their concatenation. */
  lemma OutsideAppend(a: seq<nat>, b: seq<nat>, i: int)
    requires Outside(a, i) && Outside(b, i)
    ensures Outside(a + b, i)
  {
    forall j | 0 <= j < |a + b|
      ensures !((a + b)[j] <= i < (a + b)[j] + 4)
    {
      if j >= |a| {
        assert (a + b)[j] == b[j - |a|];
      }
    }
  }

  /** No recorded field covers the opcode bytes of a visited branch, the bytes from its start up to its own field. */
  lemma {:induction false} FieldsSpareOpcode(visits: seq<Visit>, j: nat, i: int)
    requires Spaced(visits) && j < |visits| && visits[j].field.Some?
    requires visits[j].at <= i < visits[j].field.value
    ensures Outside(Fields(visits), i)
    decreases |visits|
  {
    var last := |visits| - 1;
    var prefix := visits[..last];
    assert forall t :: 0 <= t < last ==> prefix[t] == visits[t];
    var tail := if visits[last].field.Some? then [visits[last].field.value] else [];
    if j < last {
      FieldsSpareOpcode(prefix, j, i);
    } else {
      FieldsBelow(prefix, visits[last].at);
    }
    OutsideAppend(Fields(prefix), tail, i);
  }

  /**
   * The code after the patch: the walk from the first byte rewrites the field
   * of every near branch to `from` it visits; None when the walk would decode
   * past the buffer.
   */
  function Patched(code: seq<Byte>, base: int, from: int, to: int): (c: Option<seq<Byte>>)
    ensures c.Some? <==> Walk(code, base, from, 0).Some?
    ensures c.Some? ==> |c.value| == |code|
  {
    match Walk(code, base, from, 0)
    case None => None
    case Some(visits) =>
      WalkSpaced(code, base, from, 0);
      FieldsAscending(visits, |code|);
      Some(PatchFields(code, base, to, Fields(visits)))
  }

  /** The number of branches the walk from the first byte rewrites. */
  function PatchCount(code: seq<Byte>, base: int, from: int): (k: Option<nat>)
    ensures k.Some? <==> Walk(code, base, from, 0).Some?
  {
    match Walk(code, base, from, 0)
    case None => None
    case Some(visits) => Some(|Fields(visits)|)
  }

  /** Patched and PatchCount in terms of the visits of the walk. */
  lemma PatchedOf(code: seq<Byte>, base: int, from: int, to: int, visits: seq<Visit>)
    requires Walk(code, base, from, 0) == Some(visits)
    ensures FieldsIn(Fields(visits), |code|)
    ensures Patched(code, base, from, to) == Some(PatchFields(code, base, to, Fields(visits)))
    ensures PatchCount(code, base, from) == Some(|Fields(visits)|)
  {
    WalkSpaced(code, base, from, 0);
    FieldsAscending(visits, |code|);
  }

  /** Rewriting the fields of spaced visits leaves the opcode bytes of each visited branch alone. */
  lemma PatchFieldsKind(code: seq<Byte>, base: int, to: int, visits: seq<Visit>, j: nat)
    requires Spaced(visits) && VisitsIn(visits, 0, |code|) && j < |visits|
    requires FieldsIn(Fields(visits), |code|)
    requires NearJump(code, visits[j].at).Some?
    requires visits[j].field == Some(visits[j].at + NearJump(code, visits[j].at).value)
    ensures NearJump(PatchFields(code, base, to, Fields(visits)), visits[j].at) == NearJump(code, visits[j].at)
  {
    var fields := Fields(visits);
    var s := visits[j].at;
    FieldsSpareOpcode(visits, j, s);
    PatchFieldsOutside(code, base, to, fields, s);
    if NearJump(code, s).value == 2 {
      FieldsSpareOpcode(visits, j, s + 1);
      PatchFieldsOutside(code, base, to, fields, s + 1);
    }
  }

  /** A branch whose rel32 field is among the rewritten ones now targets `to` modulo 2^32 (exactly, when the displacement fits). */
  lemma PatchFieldsTarget(code: seq<Byte>, base: int, to: int, fields: seq<nat>, p: nat, f: nat)
    requires FieldsIn(fields, |code|) && Ascending(fields) && p + f in fields
    ensures var c := PatchFields(code, base, to, fields);
      && (BranchTarget(c, base, p, f) - to) % TwoTo32 == 0
      && (-0x8000_0000 <= to - (base + p + f + 4) < 0x8000_0000 ==> BranchTarget(c, base, p, f) == to)
  {
    var m :| 0 <= m < |fields| && fields[m] == p + f;
    PatchFieldsDisp(code, base, to, fields, m);
  }

  /** Rewriting the fields of spaced visits leaves each visited branch the same kind of branch, now pointing at `to`. */
  lemma PatchFieldsRetarget(code: seq<Byte>, base: int, to: int, visits: seq<Visit>, j: nat)
    requires Spaced(visits) && VisitsIn(visits, 0, |code|) && j < |visits|
    requires Ascending(Fields(visits)) && FieldsIn(Fields(visits), |code|)
    requires NearJump(code, visits[j].at).Some?
    requires visits[j].field == Some(visits[j].at + NearJump(code, visits[j].at).value)
    ensures var c := PatchFields(code, base, to, Fields(visits));
      var s := visits[j].at;
      var f := NearJump(code, s).value;
      && NearJump(c, s) == NearJump(code, s)
      && (BranchTarget(c, base, s, f) - to) % TwoTo32 == 0
      && (-0x8000_0000 <= to - (base + s + f + 4) < 0x8000_0000 ==> BranchTarget(c, base, s, f) == to)
  {
    var s := visits[j].at;
    var f := NearJump(code, s).value;
    FieldsMember(visits, s + f);
    PatchFieldsTarget(code, base, to, Fields(visits), s, f);
    PatchFieldsKind(code, base, to, visits, j);
  }

  /**
   * After the patch every near branch to `from` that the walk visits is still
   * the same kind of branch, and now targets `to` modulo 2^32 (exactly, when
   * the new displacement fits in 32 bits).
   */
  lemma PatchedRetargets(code: seq<Byte>, base: int, from: int, to: int, visits: seq<Visit>, j: nat)
    requires Walk(code, base, from, 0) == Some(visits) && j < |visits|
    requires Matches(code, base, from, visits[j].at)
    ensures var c := Patched(code, base, from, to).value;
      var s := visits[j].at;
      var f := NearJump(code, s).value;
      && NearJump(c, s) == NearJump(code, s)
      && (BranchTarget(c, base, s, f) - to) % TwoTo32 == 0
      && (-0x8000_0000 <= to - (base + s + f + 4) < 0x8000_0000 ==> BranchTarget(c, base, s, f) == to)
  {
    WalkFields(code, base, from, 0, j);
    WalkSpaced(code, base, from, 0);
    FieldsAscending(visits, |code|);
    PatchedOf(code, base, from, to, visits);
    PatchFieldsRetarget(code, base, to, visits, j);
  }

  /** Every byte outside the rewritten fields keeps its value. */
  lemma PatchedKeeps(code: seq<Byte>, base: int, from: int, to: int, visits: seq<Visit>, i: nat)
    requires Walk(code, base, from, 0) == Some(visits) && i < |code|
    requires Outside(Fields(visits), i)
    ensures Patched(code, base, from, to).value[i] == code[i]
  {
    PatchedOf(code, base, from, to, visits);
    WalkSpaced(code, base, from, 0);
    FieldsAscending(visits, |code|);
    PatchFieldsOutside(code, base, to, Fields(visits), i);
  }

  // ---------------------------------------------------------------------------
  // Patching in place

  /** x and y are the same length and hold the same bytes from q on. */
  predicate AgreeFrom(x: seq<Byte>, y: seq<Byte>, q: nat)
  {
    |x| == |y| && forall i :: q <= i < |x| ==> x[i] == y[i]
  }

  /** Whether the instruction at p is a near branch to `from`, and of which kind, depends only on the bytes from p on. */
  lemma MatchesLocal(a: seq<Byte>, b: seq<Byte>, base: int, from: int, p: nat)
    requires p + 5 < |a| && AgreeFrom(a, b, p)
    ensures NearJump(a, p) == NearJump(b, p)
    ensures FieldAt(a, base, from, p) == FieldAt(b, base, from, p)
  {
    assert a[p] == b[p] && a[p + 1] == b[p + 1];
    if NearJump(a, p).Some? {
      var f := NearJump(a, p).value;
      assert a[p + f..p + f + 4] == b[p + f..p + f + 4];
    }
  }

  /** Rewriting the field of a near branch leaves its decoded length alone. */
  lemma WriteFieldLength(code: seq<Byte>, base: int, to: int, p: nat)
    requires p + 5 < |code| && NearJump(code, p).Some?
    ensures var code' := WriteField(code, base, to, p + NearJump(code, p).value);
      && NearJump(code', p) == NearJump(code, p)
      && InsLen(code', p) == InsLen(code, p)
      && AgreeFrom(code', code, p + NearJump(code, p).value + 4)
  {
    var f := NearJump(code, p).value;
    var code' := WriteField(code, base, to, p + f);
    assert code'[p] == code[p];
    if f == 2 {
      assert code'[p + 1] == code[p + 1];
    }
    NearBranchLength(code, p);
    NearBranchLength(code', p);
  }

  /** Writing one more field after the others. */
  lemma PatchFieldsSnoc(code: seq<Byte>, base: int, to: int, fields: seq<nat>, q: nat)
    requires FieldsIn(fields, |code|) && q + 4 <= |code|
    ensures FieldsIn(fields + [q], |code|)
    ensures PatchFields(code, base, to, fields + [q]) == WriteField(PatchFields(code, base, to, fields), base, to, q)
  {
    assert (fields + [q])[..|fields|] == fields;
  }

  /** The signed 32-bit displacement stored at i (an unaligned little-endian load). */
  method LoadDisp32(code: array<Byte>, i: nat) returns (d: int)
    requires i + 4 <= code.Length
    ensures d == Disp32(code[..], i)
  {
    var u := code[i] as int + 0x100 * (code[i + 1] as int + 0x100 * (code[i + 2] as int + 0x100 * code[i + 3] as int));
    LeValue4(code[..][i..i + 4]);
    d := if u < 0x8000_0000 then u else u - TwoTo32;
  }

  /** Points the rel32 field at q at `to`: stores the displacement from the field's end, truncated to 32 bits. */
  method StoreField(code: array<Byte>, base: int, to: int, q: nat)
    requires q + 4 <= code.Length
    modifies code
    ensures code[..] == WriteField(old(code[..]), base, to, q)
  {
    var v := to - (base + q + 4);
    Le32Bytes(v);
    code[q] := v % 0x100;
    code[q + 1] := v / 0x100 % 0x100;
    code[q + 2] := v / 0x100 / 0x100 % 0x100;
    code[q + 3] := v / 0x100 / 0x100 / 0x100 % 0x100;
    assert code[..] == old(code[..])[..q] + Le32(v) + old(code[..])[q + 4..];
  }

  /**
   * The rel32 field of the instruction at p when it is a near branch to
   * `from`: a Jcc (0F 8x) is matched first, then a JMP (E9).
   */
  method BranchField(code: array<Byte>, base: int, from: int, p: nat) returns (field: Option<nat>)
    requires p + 5 < code.Length
    ensures field == FieldAt(code[..], base, from, p)
  {
    field := None;
    if code[p] == 0x0f && code[p + 1] / 16 == 8 {
      var d := LoadDisp32(code, p + 2);
      if base + p + 6 + d == from {
        field := Some(p + 2);
      }
    }
    if field.None? && code[p] == 0xe9 {
      var d := LoadDisp32(code, p + 1);
      if base + p + 5 + d == from {
        field := Some(p + 1);
      }
    }
  }

  /** While the walk goes on from p, the buffer being patched decodes at p. */
  lemma Decodes(orig: seq<Byte>, cur: seq<Byte>, base: int, from: int, p: nat)
    requires p + 5 < |orig| && Walk(orig, base, from, p).Some? && AgreeFrom(cur, orig, p)
    ensures InsLen(cur, p).Some?
  {
    InsLenLocal(cur, orig, p);
    WalkStep(orig, base, from, p);
  }

  /**
   * Rewriting the field q of the branch at p, in a buffer that holds the
   * original bytes from p on and the fields fs rewritten, gives the buffer
   * with fs and then q rewritten; it keeps the decoded length at p and the
   * original bytes from the next instruction on.
   */
  lemma WriteStep(orig: seq<Byte>, cur: seq<Byte>, base: int, from: int, to: int, fs: seq<nat>, p: nat, q: nat)
    requires p + 5 < |orig| && AgreeFrom(cur, orig, p) && FieldAt(cur, base, from, p) == Some(q)
    requires FieldsIn(fs, |orig|) && cur == PatchFields(orig, base, to, fs)
    ensures FieldAt(orig, base, from, p) == Some(q) && InsLen(orig, p).Some?
    ensures var next := WriteField(cur, base, to, q);
      && InsLen(next, p) == InsLen(orig, p)
      && AgreeFrom(next, orig, p + InsLen(orig, p).value)
      && FieldsIn(fs + [q], |orig|)
      && next == PatchFields(orig, base, to, fs + [q])
  {
    MatchesLocal(orig, cur, base, from, p);
    InsLenLocal(cur, orig, p);
    FieldAtLength(orig, base, from, p);
    WriteFieldLength(cur, base, to, p);
    PatchFieldsSnoc(orig, base, to, fs, q);
  }

  /** Concatenation is associative. */
  lemma AppendAssoc<T>(a: seq<T>, b: seq<T>, c: seq<T>)
    ensures (a + b) + c == a + (b + c)
  {
  }

  /** The walk from p, one instruction on: the field of the instruction at p, if any, then the fields of the walk from the next one. */
  lemma WalkAdvance(code: seq<Byte>, base: int, from: int, p: nat, p': int, rest: seq<Visit>, field: Option<nat>)
    returns (rest': seq<Visit>)
    requires p + 5 < |code| && Walk(code, base, from, p) == Some(rest) && field == FieldAt(code, base, from, p)
    requires InsLen(code, p).Some? ==> p' == p + InsLen(code, p).value
    ensures InsLen(code, p) == Some(p' - p) && p' >= 0 && Walk(code, base, from, p') == Some(rest')
    ensures Fields(rest) == (if field.Some? then [field.value] else []) + Fields(rest')
  {
    WalkStep(code, base, from, p);
    var n := InsLen(code, p).value;
    assert p' == p + n;
    rest' := Walk(code, base, from, p + n).value;
    var v := Visit(p, field);
    assert rest == [v] + rest';
    FieldsAppend([v], rest');
    FieldsOne(v);
  }

  lemma FieldsOne(v: Visit)
    ensures Fields([v]) == if v.field.Some? then [v.field.value] else []
  {
    assert [v][..0] == [];
  }

  /**
   * One pass of the patch loop, as ghost facts. Before it, the walk from p
   * has the visits `rest` ahead, and the buffer `cur` holds the original
   * bytes from p on and the fields fs rewritten, the fields of the visits
   * behind. The buffer `next` that the pass leaves holds the original bytes
   * from p + n on (n the length decoded at p) and the fields fs' rewritten,
   * fs extended by the field of the visit at p, if any; the walk from p + n
   * has the visits rest' ahead, and no field is lost or gained.
   */
  lemma Advance(orig: seq<Byte>, cur: seq<Byte>, next: seq<Byte>, base: int, from: int, to: int,
                rest: seq<Visit>, fs: seq<nat>, p: nat, field: Option<nat>, n: int, p': int)
    returns (rest': seq<Visit>, fs': seq<nat>)
    requires p + 5 < |orig| && Walk(orig, base, from, p) == Some(rest)
    requires AgreeFrom(cur, orig, p) && FieldsIn(fs, |orig|) && cur == PatchFields(orig, base, to, fs)
    requires field == FieldAt(cur, base, from, p)
    requires field.None? ==> next == cur
    requires field.Some? ==> next == WriteField(cur, base, to, field.value)
    requires InsLen(cur, p) == Some(n) && p' == p + n
    ensures p' >= 0 && Walk(orig, base, from, p') == Some(rest')
    ensures fs' + Fields(rest') == fs + Fields(rest)
    ensures AgreeFrom(next, orig, p') && FieldsIn(fs', |orig|) && next == PatchFields(orig, base, to, fs')
    ensures |fs'| == |fs| + (if field.Some? then 1 else 0)
  {
    InsLenLocal(cur, orig, p);
    MatchesLocal(orig, cur, base, from, p);
    rest' := WalkAdvance(orig, base, from, p, p', rest, field);
    var head: seq<nat> := if field.Some? then [field.value] else [];
    if field.Some? {
      WriteStep(orig, cur, base, from, to, fs, p, field.value);
    } else {
      assert fs + head == fs;
    }
    fs' := fs + head;
    AppendAssoc(fs, head, Fields(rest'));
  }

  /**
   * The body of the x64 patch loop at p: rewrites the rel32 field of the
   * instruction at p when it is a near branch to `from` (returning that
   * field), then decodes the length n of the instruction at p, which the
   * rewrite leaves alone.
   */
  method PatchAt(code: array<Byte>, base: int, from: int, to: int, p: nat) returns (field: Option<nat>, n: int)
    requires p + 5 < code.Length && InsLen(code[..], p).Some?
    modifies code
    ensures field == FieldAt(old(code[..]), base, from, p)
    ensures field.None? ==> code[..] == old(code[..])
    ensures field.Some? ==> code[..] == WriteField(old(code[..]), base, to, field.value)
    ensures InsLen(old(code[..]), p) == Some(n)
  {
    ghost var cur := code[..];
    field := BranchField(code, base, from, p);
    if field.Some? {
      var q := field.value;
      WriteFieldLength(cur, base, to, p);
      StoreField(code, base, to, q);
    }
    var len := AsmX86InsLen(code, p);
    n := len.value;
  }

  /**
   * `ir_patch_code` for x64: walks the code from its first byte and points
   * every near branch to `from` at `to`. Returns how many it rewrote and
   * whether the instruction cache was flushed (when it rewrote any).
   */
  method PatchCode(code: array<Byte>, base: int, from: int, to: int) returns (count: nat, flushed: bool)
    requires Walk(code[..], base, from, 0).Some?
    modifies code
    ensures Patched(old(code[..]), base, from, to) == Some(code[..])
    ensures PatchCount(old(code[..]), base, from) == Some(count)
    ensures flushed == (count > 0)
  {
    ghost var orig := code[..];
    ghost var visits := Walk(orig, base, from, 0).value;
    ghost var rest := visits;
    ghost var fs: seq<nat> := [];
    count := 0;
    var p: nat := 0;
    while p + 5 < code.Length
      invariant Walk(orig, base, from, p) == Some(rest)
      invariant fs + Fields(rest) == Fields(visits)
      invariant AgreeFrom(code[..], orig, p) && FieldsIn(fs, |orig|)
      invariant code[..] == PatchFields(orig, base, to, fs)
      invariant count == |fs|
      decreases code.Length - p
    {
      ghost var cur := code[..];
      Decodes(orig, cur, base, from, p);
      var field, n := PatchAt(code, base, from, to, p);
      var p' := p + n;
      rest, fs := Advance(orig, cur, code[..], base, from, to, rest, fs, p, field, n, p');
      if field.Some? {
        count := count + 1;
      }
      p := p';
    }
    assert rest == [] && fs + [] == fs;
    PatchedOf(orig, base, from, to, visits);
    flushed := count > 0;
  }
}
