/** The x86-64 relative-instruction encoder (patcher/x86_64.c).

    An instruction buffer starts with an opcode; for the five opcodes the
    patcher knows, the bytes after the opcode (after a 2-byte prefix for the
    MOVs) hold a displacement relative to the next instruction, as the CALL,
    JMP and MOV entries of the Intel 64 and IA-32 Architectures Software
    Developer's Manual, Volume 2, Chapter 3, describe.  `ModifyInstruction`
    rewrites that displacement in place so that the instruction at `curPos`
    refers to `tgtPos`. */
module X86 {
  import opened Bits
  import opened Wrappers

  const OP_CALLQ: byte := 0xe8
  const OP_JMPQ: byte := 0xe9
  const OP_JMP: byte := 0xeb
  const OP_MOV_RM_32: byte := 0x89
  const OP_MOV_MR_32: byte := 0x8b
  const OP_MAX: int := 0x100

  /** Linux `EINVAL`. */
  const EINVAL: int := 22

  /** `INT_MIN` for the 32-bit C `int`. */
  const INT_MIN: int := -0x8000_0000

  /** `struct x86_op_info_s`: whole instruction length and opcode length. */
  datatype OpInfo = OpInfo(instrSize: nat, cmdSize: nat)

  /** `x86_ops` has no explicit size, so C sizes it by its largest designator,
      `[OP_JMP]` (0xeb): the table has 0xec entries. */
  const X86_OPS_LEN: int := 0xec

  /** `x86_ops[op]` for an index inside the table: all zero except the five
      designated entries. */
  function X86Ops(op: byte): OpInfo
    requires op < X86_OPS_LEN
  {
    if op == OP_CALLQ || op == OP_JMPQ then OpInfo(5, 1)
    else if op == OP_JMP then OpInfo(2, 1)
    else if op == OP_MOV_RM_32 || op == OP_MOV_MR_32 then OpInfo(6, 2)
    else OpInfo(0, 0)
  }

  /** What `x86_get_op_info` as written does with a byte: returns a table
      entry, returns NULL, or reads `x86_ops[op]` past the end of the table,
      which is undefined behaviour in C. */
  datatype Lookup = Entry(info: OpInfo) | Null | PastTable

  /** `x86_get_op_info` as written.  Its guard is `op >= OP_MAX`, and OP_MAX
      (0x100) is the number of byte values, not the size of the table, so the
      guard never fires and every byte from 0xec on is read out of bounds. */
  function GetOpInfoAsWritten(op: byte): (r: Lookup)
    ensures r.PastTable? <==> X86_OPS_LEN <= op
    ensures r.Entry? ==> r.info.instrSize != 0
  {
    if op >= OP_MAX then
      assert false; Null
    else if op >= X86_OPS_LEN then PastTable
    else if X86Ops(op).instrSize == 0 then Null
    else Entry(X86Ops(op))
  }

  /** 0xff, the opcode of the indirect CALL and JMP, passes the guard and is
      read past the end of `x86_ops`. */
  lemma IndirectOpcodeReadsPastTable()
    ensures !(0xff >= OP_MAX)
    ensures GetOpInfoAsWritten(0xff) == PastTable
  {
  }

  /** `x86_get_op_info` with its guard against the size of the table: the
      table entry of a known opcode, None (NULL) for any other byte.  The rest
      of the model uses this lookup. */
  function GetOpInfo(op: byte): (r: Option<OpInfo>)
    ensures r.Some? ==> 0 < r.value.cmdSize < r.value.instrSize && r.value.instrSize - r.value.cmdSize <= 4
  {
    if op >= X86_OPS_LEN then None
    else if X86Ops(op).instrSize == 0 then None
    else Some(X86Ops(op))
  }

  /** Wherever the code as written stays inside the table, the corrected
      lookup gives the same answer. */
  lemma CorrectedLookupAgrees(op: byte)
    requires !GetOpInfoAsWritten(op).PastTable?
    ensures GetOpInfoAsWritten(op).Entry? <==> GetOpInfo(op).Some?
    ensures GetOpInfo(op).Some? ==> GetOpInfoAsWritten(op) == Entry(GetOpInfo(op).value)
  {
  }

  /** The byte length of the displacement field. */
  function AddrSize(info: OpInfo): int
  {
    info.instrSize - info.cmdSize
  }

  /** The corrected lookup knows exactly five opcodes and gives NULL for
      every other byte. */
  lemma KnownOpcodes(op: byte)
    ensures GetOpInfo(op).Some? <==> op in {OP_CALLQ, OP_JMPQ, OP_JMP, OP_MOV_RM_32, OP_MOV_MR_32}
  {
  }

  /** The sizes each known opcode gets. */
  lemma OpSizes()
    ensures GetOpInfo(OP_CALLQ) == Some(OpInfo(5, 1)) && GetOpInfo(OP_JMPQ) == Some(OpInfo(5, 1))
    ensures GetOpInfo(OP_JMP) == Some(OpInfo(2, 1))
    ensures GetOpInfo(OP_MOV_RM_32) == Some(OpInfo(6, 2)) && GetOpInfo(OP_MOV_MR_32) == Some(OpInfo(6, 2))
    ensures AddrSize(OpInfo(5, 1)) == 4 && AddrSize(OpInfo(2, 1)) == 1 && AddrSize(OpInfo(6, 2)) == 4
  {
  }

  // ---------------------------------------------------------------------
  // C conversions used by ip_gen_offset
  // ---------------------------------------------------------------------

  /** A 64-bit pattern read as a C `long`. */
  function ToLong(w: u64): int
  {
    Pow2Constants();
    ToSigned(w, 64)
  }

  /** A value converted to the 32-bit C `int`: its low 32 bits, two's complement. */
  function ToInt32(x: int): (r: int)
    ensures INT_MIN <= r < -INT_MIN
  {
    Pow2Constants();
    ToSigned(x % Pow2(32), 32)
  }

  /** `abs` on an `int`.  `abs(INT_MIN)` is undefined in C; it is modelled as
      the value two's-complement hardware gives, INT_MIN itself. */
  function CAbs(x: int): (r: int)
    requires INT_MIN <= x < -INT_MIN
    ensures x != INT_MIN ==> 0 <= r < -INT_MIN && (r == x || r == -x)
    ensures x == INT_MIN ==> r == INT_MIN
  {
    if x == INT_MIN then INT_MIN else if x < 0 then -x else x
  }

  /** The `long offset` of ip_gen_offset: `tgt_pos - next_ip` computed in
      `unsigned long` and read back as `long`. */
  function Displacement(nextIp: u64, tgtPos: u64): int
  {
    ToLong(Wrap64(tgtPos - nextIp))
  }

  /** The range test of ip_gen_offset as written: `abs()` of the displacement
      truncated to `int`, widened back to `unsigned long`, has no bit outside
      the low `addrSize` bytes. */
  predicate OffsetAccepted(offset: int, addrSize: nat)
  {
    Wrap64(CAbs(ToInt32(offset))) < Pow2(8 * addrSize)
  }

  /** The mask loop adds one byte of ones per step. */
  lemma MaskStep(i: nat)
    requires i < 8
    ensures Pow2(8 * (i + 1)) - 1 < U64_LIMIT
    ensures Shl64(0xff, 8 * i) == 0xff * Pow2(8 * i)
    ensures BitOr(Pow2(8 * i) - 1, Shl64(0xff, 8 * i)) == Pow2(8 * (i + 1)) - 1
  {
    var p := Pow2(8 * i);
    MaskBounds(i);
    assert 0xff * p == 256 * p - p;
    DivUnique(0xff * p, U64_LIMIT, 0, 0xff * p);
    OrDisjoint(p - 1, 0xff, 8 * i);
  }

  /** The next mask is one byte wider and still fits 64 bits. */
  lemma MaskBounds(i: nat)
    requires i < 8
    ensures Pow2(8 * (i + 1)) == 256 * Pow2(8 * i) <= U64_LIMIT
  {
    Pow2Add(8 * i, 8);
    Pow2Constants();
    Pow2Monotonic(8 * (i + 1), 64);
  }

  /** `ip_gen_offset`: builds the mask of `addrSize` bytes, computes the
      displacement and, when `abs()` of it fits the mask, stores it through the
      `int *` out-pointer (`stored`); otherwise returns -EINVAL and stores
      nothing. */
  method IpGenOffset(nextIp: u64, tgtPos: u64, addrSize: nat) returns (ret: int, stored: Option<int>)
    requires addrSize <= 8
    ensures ret == 0 || ret == -EINVAL
    ensures ret == 0 <==> OffsetAccepted(Displacement(nextIp, tgtPos), addrSize)
    ensures ret == 0 ==> stored == Some(ToInt32(Displacement(nextIp, tgtPos)))
    ensures ret != 0 ==> stored == None
  {
    var mask: u64 := 0;
    var i := 0;
    while i < addrSize
      invariant i <= addrSize
      invariant mask == Pow2(8 * i) - 1
    {
      MaskStep(i);
      mask := BitOr(mask, Shl64(0xff, 8 * i));
      i := i + 1;
    }
    var offset := Displacement(nextIp, tgtPos);
    AndNotLowMask(Wrap64(CAbs(ToInt32(offset))), 8 * addrSize);
    if BitAnd(Wrap64(CAbs(ToInt32(offset))), Not64(mask)) != 0 {
      return -EINVAL, None;
    }
    return 0, Some(ToInt32(offset));
  }

  /** The 4-byte pattern of an `int` agrees with the unsigned difference on
      its low 32 bits. */
  lemma Int32Bits(nextIp: u64, tgtPos: u64)
    ensures ToInt32(Displacement(nextIp, tgtPos)) % Pow2(32) == Wrap64(tgtPos - nextIp) % Pow2(32)
  {
    Pow2Constants();
    var P := Pow2(32);
    var w := Wrap64(tgtPos - nextIp);
    var off := Displacement(nextIp, tgtPos);
    var m := w % P;
    assert w == P * (w / P) + m;
    if off == w {
      DivUnique(off, P, w / P, m);
    } else {
      assert off == w - U64_LIMIT && U64_LIMIT == P * P;
      DivUnique(off, P, w / P - P, m);
    }
    var t := ToInt32(off);
    if t == m {
      DivUnique(t, P, 0, m);
    } else {
      assert t == m - P;
      DivUnique(t, P, -1, m);
    }
  }

  /** The first n <= 4 bytes of an `int`'s pattern are the low n bytes of the
      unsigned difference. */
  lemma StoredBytes(nextIp: u64, tgtPos: u64, n: nat)
    requires n <= 4
    ensures LeBytes(ToInt32(Displacement(nextIp, tgtPos)) % Pow2(32), n) == LeBytes(Wrap64(tgtPos - nextIp), n)
  {
    var w := Wrap64(tgtPos - nextIp);
    Int32Bits(nextIp, tgtPos);
    LeBytesPrefix(w % Pow2(32), n, 4);
    LeBytesPrefix(w, n, 4);
    LeBytesLowBits(w, 4);
  }

  /** `ip_change_relative`: on an accepted displacement, `memcpy` of its low
      `addrSize` bytes (least significant first) to `buf[at..]`; returns -1 and
      leaves the buffer alone otherwise. */
  method IpChangeRelative(buf: array<byte>, at: nat, nextIp: u64, tgtPos: u64, addrSize: nat)
    returns (ret: int)
    requires addrSize <= 4 && at + addrSize <= buf.Length
    modifies buf
    ensures ret == 0 || ret == -1
    ensures ret == 0 <==> OffsetAccepted(Displacement(nextIp, tgtPos), addrSize)
    ensures ret == 0 ==>
      buf[..] == old(buf[..at]) + LeBytes(Wrap64(tgtPos - nextIp), addrSize) + old(buf[at + addrSize..])
    ensures ret != 0 ==> buf[..] == old(buf[..])
  {
    var r, stored := IpGenOffset(nextIp, tgtPos, addrSize);
    if r != 0 {
      return -1;
    }
    var offset := stored.value;
    var bytes := LeBytes(offset % Pow2(32), addrSize);
    StoredBytes(nextIp, tgtPos, addrSize);
    MemCpy(buf, at, bytes, addrSize);
    assert bytes[..addrSize] == bytes;
    return 0;
  }

  /** What `x86_modify_instruction` does to a buffer `b`, giving `b'` and the
      return value `ret`. */
  predicate ModifyOutcome(b: seq<byte>, b': seq<byte>, curPos: u64, tgtPos: u64, ret: int)
    requires |b| >= 1
  {
    match GetOpInfo(b[0])
    case None => ret == -EINVAL && b' == b
    case Some(info) => RetargetedOutcome(b, b', curPos, tgtPos, info, ret)
  }

  /** What `x86_modify_instruction` does once the opcode's entry `info` is
      known: the displacement field after the opcode is rewritten, or nothing
      changes and -1 is returned. */
  predicate RetargetedOutcome(b: seq<byte>, b': seq<byte>, curPos: u64, tgtPos: u64, info: OpInfo, ret: int)
    requires info.cmdSize <= info.instrSize
  {
    var next := Wrap64(curPos + info.instrSize);
    var a := AddrSize(info);
    if OffsetAccepted(Displacement(next, tgtPos), a) then
      && ret == info.instrSize
      && info.instrSize <= |b|
      && b' == b[..info.cmdSize] + LeBytes(Wrap64(tgtPos - next), a) + b[info.instrSize..]
    else
      ret == -1 && b' == b
  }

  /** `x86_modify_instruction`: retarget the relative instruction in `buf`,
      returning its length, -EINVAL for an unknown opcode, or -1 when the
      displacement does not fit.  The opcode is looked up with the corrected
      `GetOpInfo`, so a byte from 0xec on also gives -EINVAL. */
  method ModifyInstruction(buf: array<byte>, curPos: u64, tgtPos: u64) returns (ret: int)
    requires buf.Length >= 1
    requires GetOpInfo(buf[0]).Some? ==> GetOpInfo(buf[0]).value.instrSize <= buf.Length
    modifies buf
    ensures ModifyOutcome(old(buf[..]), buf[..], curPos, tgtPos, ret)
  {
    ghost var b := buf[..];
    var info := GetOpInfo(buf[0]);
    if info.None? {
      assert ModifyOutcome(b, b, curPos, tgtPos, -EINVAL);
      return -EINVAL;
    }
    var op := info.value;
    var r := IpChangeRelative(buf, op.cmdSize, Wrap64(curPos + op.instrSize), tgtPos, AddrSize(op));
    ret := if r != 0 then -1 else op.instrSize;
    RetargetOutcome(b, buf[..], curPos, tgtPos, op, r);
    KnownModifyOutcome(b, buf[..], curPos, tgtPos, op, ret);
  }

  /** For a known opcode, `ModifyOutcome` is the outcome for its table entry. */
  lemma KnownModifyOutcome(b: seq<byte>, b': seq<byte>, curPos: u64, tgtPos: u64, info: OpInfo, ret: int)
    requires |b| >= 1 && GetOpInfo(b[0]) == Some(info)
    requires RetargetedOutcome(b, b', curPos, tgtPos, info, ret)
    ensures ModifyOutcome(b, b', curPos, tgtPos, ret)
  {
  }

  /** The outcome of `ip_change_relative` on the displacement field of a known
      instruction is the outcome `x86_modify_instruction` promises. */
  lemma RetargetOutcome(b: seq<byte>, b': seq<byte>, curPos: u64, tgtPos: u64, info: OpInfo, r: int)
    requires info.cmdSize < info.instrSize <= |b|
    requires r == 0 <==> OffsetAccepted(Displacement(Wrap64(curPos + info.instrSize), tgtPos), AddrSize(info))
    requires r == 0 ==>
      b' == b[..info.cmdSize] + LeBytes(Wrap64(tgtPos - Wrap64(curPos + info.instrSize)), AddrSize(info))
            + b[info.cmdSize + AddrSize(info)..]
    requires r != 0 ==> b' == b
    ensures RetargetedOutcome(b, b', curPos, tgtPos, info, if r != 0 then -1 else info.instrSize)
  {
  }

  /** `x86_create_instruction`: store the opcode first, then retarget.  The
      opcode byte stays written even when retargeting fails. */
  method CreateInstruction(buf: array<byte>, op: byte, curPos: u64, tgtPos: u64) returns (ret: int)
    requires buf.Length >= 1
    requires GetOpInfo(op).Some? ==> GetOpInfo(op).value.instrSize <= buf.Length
    modifies buf
    ensures buf[0] == op
    ensures ModifyOutcome(old(buf[..])[0 := op], buf[..], curPos, tgtPos, ret)
  {
    buf[0] := op;
    ret := ModifyInstruction(buf, curPos, tgtPos);
  }

  // ---------------------------------------------------------------------
  // What the encoding means
  // ---------------------------------------------------------------------

  /** Where a CPU goes with the displacement field `field` of an instruction
      ending at `nextIp`: the field is a signed little-endian value. */
  function DecodedTarget(nextIp: u64, field: seq<byte>): u64
    requires 0 < |field| <= 8
  {
    Pow2Constants();
    Pow2Monotonic(8 * |field|, 64);
    LeValueBound(field);
    Wrap64(nextIp + ToSigned(LeValue(field), 8 * |field|))
  }

  lemma {:induction false} LeValueBound(b: seq<byte>)
    ensures LeValue(b) < Pow2(8 * |b|)
  {
    if b != [] {
      LeValueBound(b[1..]);
      Pow2Constants();
      Pow2Add(8, 8 * (|b| - 1));
      assert Pow2(8 * |b|) == 256 * Pow2(8 * (|b| - 1));
    }
  }

  /** The displacement a field of `a` bytes can carry: a signed `8a`-bit value. */
  predicate OffsetEncodable(nextIp: u64, tgtPos: u64, a: nat)
    requires 0 < a <= 8
  {
    Pow2Constants();
    Pow2Monotonic(8 * a - 1, 63);
    -(Pow2(8 * a - 1) as int) <= Displacement(nextIp, tgtPos) < Pow2(8 * a - 1)
  }

  /** Signed values agreeing modulo 2^bits with an in-range value equal it. */
  lemma ToSignedOfMod(d: int, bits: nat)
    requires 0 < bits && -(Pow2(bits - 1) as int) <= d < Pow2(bits - 1)
    ensures ToSigned(d % Pow2(bits), bits) == d
  {
    var p := Pow2(bits);
    assert p == 2 * Pow2(bits - 1);
    if d >= 0 {
      DivUnique(d, p, 0, d);
    } else {
      DivUnique(d, p, -1, d + p);
    }
  }

  /** Two values in the signed 64-bit range that agree modulo 2^64 are equal. */
  lemma SignedModUnique(d: int, e: int)
    requires -0x8000_0000_0000_0000 <= d < 0x8000_0000_0000_0000
    requires -0x8000_0000_0000_0000 <= e < 0x8000_0000_0000_0000
    requires d % U64_LIMIT == e % U64_LIMIT
    ensures d == e
  {
    var q1, q2 := d / U64_LIMIT, e / U64_LIMIT;
    assert d == U64_LIMIT * q1 + d % U64_LIMIT;
    assert e == U64_LIMIT * q2 + e % U64_LIMIT;
    assert q1 == 0 || q1 == -1;
    assert q2 == 0 || q2 == -1;
  }

  /** The `long` displacement is the signed reading of the unsigned difference,
      and adding it back to `nextIp` reaches the target. */
  lemma DisplacementFacts(nextIp: u64, tgtPos: u64)
    ensures var d := Displacement(nextIp, tgtPos);
      && -0x8000_0000_0000_0000 <= d < 0x8000_0000_0000_0000
      && d % U64_LIMIT == Wrap64(tgtPos - nextIp)
      && Wrap64(nextIp + d) == tgtPos
  {
    var d := Displacement(nextIp, tgtPos);
    DisplacementResidue(nextIp, tgtPos);
    ModSum(nextIp, d, tgtPos - nextIp);
    DivUnique(tgtPos, U64_LIMIT, 0, tgtPos);
  }

  /** The displacement is the unsigned difference or that minus 2^64. */
  lemma DisplacementResidue(nextIp: u64, tgtPos: u64)
    ensures var d := Displacement(nextIp, tgtPos);
      && -0x8000_0000_0000_0000 <= d < 0x8000_0000_0000_0000
      && d % U64_LIMIT == Wrap64(tgtPos - nextIp)
  {
    Pow2Constants();
    var w := Wrap64(tgtPos - nextIp);
    var d := Displacement(nextIp, tgtPos);
    if w < 0x8000_0000_0000_0000 {
      assert d == w;
      DivUnique(d, U64_LIMIT, 0, w);
    } else {
      assert d == w - U64_LIMIT;
      DivUnique(d, U64_LIMIT, -1, w);
    }
  }

  /** Values congruent modulo 2^64 stay so after adding the same x. */
  lemma ModSum(x: int, d: int, e: int)
    ensures d % U64_LIMIT == e % U64_LIMIT <==> (x + d) % U64_LIMIT == (x + e) % U64_LIMIT
  {
    var q1, q2 := d / U64_LIMIT, e / U64_LIMIT;
    assert d == U64_LIMIT * q1 + d % U64_LIMIT;
    assert e == U64_LIMIT * q2 + e % U64_LIMIT;
    DivUnique(x + d, U64_LIMIT, q1 + (x + d % U64_LIMIT) / U64_LIMIT, (x + d % U64_LIMIT) % U64_LIMIT);
    DivUnique(x + e, U64_LIMIT, q2 + (x + e % U64_LIMIT) / U64_LIMIT, (x + e % U64_LIMIT) % U64_LIMIT);
    if (x + d) % U64_LIMIT == (x + e) % U64_LIMIT {
      ModAddBack(x, d % U64_LIMIT, e % U64_LIMIT);
    }
  }

  /** Residues r, s below 2^64 with (x + r) and (x + s) congruent are equal. */
  lemma ModAddBack(x: int, r: int, s: int)
    requires 0 <= r < U64_LIMIT && 0 <= s < U64_LIMIT
    requires (x + r) % U64_LIMIT == (x + s) % U64_LIMIT
    ensures r == s
  {
    var q1, q2 := (x + r) / U64_LIMIT, (x + s) / U64_LIMIT;
    assert x + r == U64_LIMIT * q1 + (x + r) % U64_LIMIT;
    assert x + s == U64_LIMIT * q2 + (x + s) % U64_LIMIT;
    assert r - s == U64_LIMIT * (q1 - q2);
    assert s - r == U64_LIMIT * (q2 - q1);
    if q1 > q2 {
      MulAtLeast(U64_LIMIT, q1 - q2);
    } else if q1 < q2 {
      MulAtLeast(U64_LIMIT, q2 - q1);
    }
  }

  /** A field of a bytes has the signed value of the displacement exactly when
      that displacement is encodable. */
  lemma FieldValue(nextIp: u64, tgtPos: u64, a: nat)
    requires 0 < a <= 8
    ensures var p := Pow2(8 * a);
      && LeValue(LeBytes(Wrap64(tgtPos - nextIp), a)) == Displacement(nextIp, tgtPos) % p
      && (OffsetEncodable(nextIp, tgtPos, a) ==> ToSigned(Displacement(nextIp, tgtPos) % p, 8 * a) == Displacement(nextIp, tgtPos))
  {
    Pow2Constants();
    Pow2Add(8 * a, 64 - 8 * a);
    var p := Pow2(8 * a);
    var d := Displacement(nextIp, tgtPos);
    DisplacementFacts(nextIp, tgtPos);
    LeRoundTrip(Wrap64(tgtPos - nextIp), a);
    ModOfMod(d, p, Pow2(64 - 8 * a));
    if OffsetEncodable(nextIp, tgtPos, a) {
      ToSignedOfMod(d, 8 * a);
    }
  }

  /** The bytes `ModifyInstruction` writes send the CPU to the target exactly
      when the displacement is encodable in the field: the intended range test. */
  lemma EncodableOffsetLands(nextIp: u64, tgtPos: u64, a: nat)
    requires 0 < a <= 8
    ensures OffsetEncodable(nextIp, tgtPos, a) <==> DecodedTarget(nextIp, LeBytes(Wrap64(tgtPos - nextIp), a)) == tgtPos
  {
    var d := Displacement(nextIp, tgtPos);
    var e := ToSigned(d % Pow2(8 * a), 8 * a);
    DecodedField(nextIp, tgtPos, a);
    assert DecodedTarget(nextIp, LeBytes(Wrap64(tgtPos - nextIp), a)) == Wrap64(nextIp + e);
    if OffsetEncodable(nextIp, tgtPos, a) {
      FieldValue(nextIp, tgtPos, a);
      assert e == d;
      DisplacementFacts(nextIp, tgtPos);
      assert Wrap64(nextIp + e) == tgtPos;
    }
    if Wrap64(nextIp + e) == tgtPos {
      EncodableFromLanding(nextIp, tgtPos, a);
    }
  }

  /** The CPU reads the stored field back as the displacement's low 8a bits,
      sign-extended. */
  lemma DecodedField(nextIp: u64, tgtPos: u64, a: nat)
    requires 0 < a <= 8
    ensures DecodedTarget(nextIp, LeBytes(Wrap64(tgtPos - nextIp), a))
         == Wrap64(nextIp + ToSigned(Displacement(nextIp, tgtPos) % Pow2(8 * a), 8 * a))
  {
    FieldValue(nextIp, tgtPos, a);
  }

  /** A field whose signed value lands on the target holds the displacement
      itself, which is therefore encodable. */
  lemma EncodableFromLanding(nextIp: u64, tgtPos: u64, a: nat)
    requires 0 < a <= 8
    requires Wrap64(nextIp + ToSigned(Displacement(nextIp, tgtPos) % Pow2(8 * a), 8 * a)) == tgtPos
    ensures OffsetEncodable(nextIp, tgtPos, a)
  {
    var d := Displacement(nextIp, tgtPos);
    var e := ToSigned(d % Pow2(8 * a), 8 * a);
    HalfFieldBound(a);
    DisplacementFacts(nextIp, tgtPos);
    ModSum(nextIp, d, e);
    SignedModUnique(d, e);
  }

  /** Half the range of a field of at most 8 bytes is at most 2^63. */
  lemma HalfFieldBound(a: nat)
    requires 0 < a <= 8
    ensures Pow2(8 * a - 1) <= 0x8000_0000_0000_0000
  {
    Pow2Constants();
    Pow2Monotonic(8 * a - 1, 63);
  }

  /** Reducing modulo 2^64 first does not change a value modulo a divisor p. */
  lemma ModOfMod(d: int, p: nat, k: nat)
    requires p > 0 && U64_LIMIT == p * k
    ensures (d % U64_LIMIT) % p == d % p
  {
    var q := d / U64_LIMIT;
    var r := d % U64_LIMIT;
    assert d == U64_LIMIT * q + r;
    assert U64_LIMIT * q == p * (k * q);
    assert d == p * (d / p) + d % p;
    assert r == p * (d / p - k * q) + d % p;
    DivUnique(r, p, d / p - k * q, d % p);
  }

  // ---------------------------------------------------------------------
  // The range test as written
  // ---------------------------------------------------------------------

  /** For the 4-byte fields, the test rejects only a displacement whose low 32
      bits read as INT_MIN: every other value is accepted after truncation. */
  lemma AcceptedRel32(offset: int)
    ensures OffsetAccepted(offset, 4) <==> ToInt32(offset) != INT_MIN
  {
    Pow2Constants();
    var x := ToInt32(offset);
    assert Wrap64(CAbs(x)) == if x == INT_MIN then U64_LIMIT + INT_MIN else CAbs(x);
  }

  /** For the 1-byte field, the test accepts any displacement whose truncation
      lies in -255..255, although a signed byte only holds -128..127. */
  lemma AcceptedRel8(offset: int)
    ensures OffsetAccepted(offset, 1) <==> -255 <= ToInt32(offset) <= 255
  {
    Pow2Constants();
    var x := ToInt32(offset);
    assert Wrap64(CAbs(x)) == if x == INT_MIN then U64_LIMIT + INT_MIN else CAbs(x);
  }

  /** The range test and the bytes for the short JMP at 0 to 202. */
  lemma Rel8Example()
    ensures Displacement(2, 202) == 200 && OffsetAccepted(200, 1)
    ensures LeBytes(Wrap64(202 - 2), 1) == [200]
  {
    Pow2Constants();
    AcceptedRel8(200);
  }

  /** Where the CPU goes with the byte 200 after the short JMP. */
  lemma Rel8Lands()
    ensures DecodedTarget(2, [200]) != 202
    ensures !OffsetEncodable(2, 202, 1)
  {
    Pow2Constants();
    assert Displacement(2, 202) == 200;
    assert ToSigned(200, 8) == -56;
  }

  /** A short JMP at 0 to 202: the displacement 200 passes the test, the byte
      0xc8 is written, and the CPU reads it as -56, landing far from 202. */
  lemma Rel8OutOfRangeAccepted(b': seq<byte>, ret: int)
    requires ModifyOutcome([OP_JMP, 0], b', 0, 202, ret)
    ensures ret == 2 && b' == [OP_JMP, 200]
    ensures DecodedTarget(2, b'[1..]) != 202
    ensures !OffsetEncodable(2, 202, 1)
  {
    OpSizes();
    Rel8Example();
    assert [OP_JMP, 0][..1] + [200] + [OP_JMP, 0][2..] == [OP_JMP, 200];
    assert [OP_JMP, 200][1..] == [200];
    Rel8Lands();
  }

  /** The range test and the bytes for the near JMP at 0 to 0x1_0000_000a. */
  lemma Rel32Example()
    ensures Displacement(5, 0x1_0000_000a) == 0x1_0000_0005 && OffsetAccepted(0x1_0000_0005, 4)
    ensures LeBytes(Wrap64(0x1_0000_000a - 5), 4) == [5, 0, 0, 0]
  {
    Pow2Constants();
    assert ToInt32(0x1_0000_0005) == 5;
    AcceptedRel32(0x1_0000_0005);
    assert LeBytes(0x1_0000_0005, 4) == [5, 0, 0, 0];
  }

  /** Where the CPU goes with the field 5 after the near JMP. */
  lemma Rel32Lands()
    ensures DecodedTarget(5, [5, 0, 0, 0]) == 10
    ensures !OffsetEncodable(5, 0x1_0000_000a, 4)
  {
    Pow2Constants();
    assert Displacement(5, 0x1_0000_000a) == 0x1_0000_0005;
    assert LeValue([5, 0, 0, 0]) == 5;
  }

  /** A near JMP at 0 to 0x1_0000_000a: the 64-bit displacement 0x1_0000_0005
      is truncated to 5 before the test, 5 is written, and the CPU lands at 10. */
  lemma Rel32TruncatedAccepted(b': seq<byte>, ret: int)
    requires ModifyOutcome([OP_JMPQ, 0, 0, 0, 0], b', 0, 0x1_0000_000a, ret)
    ensures ret == 5 && b' == [OP_JMPQ, 5, 0, 0, 0]
    ensures DecodedTarget(5, b'[1..]) == 10
    ensures !OffsetEncodable(5, 0x1_0000_000a, 4)
  {
    OpSizes();
    Rel32Example();
    var b := [OP_JMPQ, 0, 0, 0, 0];
    assert b[..1] + [5, 0, 0, 0] + b[5..] == [OP_JMPQ, 5, 0, 0, 0];
    assert [OP_JMPQ, 5, 0, 0, 0][1..] == [5, 0, 0, 0];
    Rel32Lands();
  }

  /** The corrected encoder: the field bytes for the displacement, or None when
      the field cannot carry it. */
  function EncodeRelative(nextIp: u64, tgtPos: u64, a: nat): (r: Option<seq<byte>>)
    requires 0 < a <= 8
    ensures r.Some? <==> OffsetEncodable(nextIp, tgtPos, a)
    ensures r.Some? ==> |r.value| == a && DecodedTarget(nextIp, r.value) == tgtPos
    ensures r.None? ==> DecodedTarget(nextIp, LeBytes(Wrap64(tgtPos - nextIp), a)) != tgtPos
  {
    EncodableOffsetLands(nextIp, tgtPos, a);
    if OffsetEncodable(nextIp, tgtPos, a) then Some(LeBytes(Wrap64(tgtPos - nextIp), a)) else None
  }

  /** Where the fields agree: a displacement the corrected test admits and that
      is not INT_MIN passes the test as written, and the bytes written are the
      corrected encoder's. */
  lemma CorrectedAgreesInRange(nextIp: u64, tgtPos: u64, a: nat)
    requires a == 1 || a == 4
    requires OffsetEncodable(nextIp, tgtPos, a) && Displacement(nextIp, tgtPos) != INT_MIN
    ensures OffsetAccepted(Displacement(nextIp, tgtPos), a)
    ensures EncodeRelative(nextIp, tgtPos, a) == Some(LeBytes(Wrap64(tgtPos - nextIp), a))
  {
    Pow2Constants();
    var d := Displacement(nextIp, tgtPos);
    assert -0x8000_0000 <= d < 0x8000_0000;
    ToSignedOfMod(d, 32);
    assert ToInt32(d) == d;
    if a == 1 {
      AcceptedRel8(d);
    } else {
      AcceptedRel32(d);
    }
  }
}
