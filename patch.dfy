/** Applying and reverting a binary patch in a traced process (patcher/patch.c):
    fixing the patch's references to the target's static variables, tuning,
    writing and reverting the jumps that redirect the replaced functions, and
    looking patches up by build ID in the list of applied patches. */
module Patch {
  import opened Bits
  import opened Wrappers
  import opened Memory

  const ENOENT: int := 2
  const EEXIST: int := 17
  const EINVAL: int := 22

  /** Size of a function jump, and of the original code it overwrites. */
  const JUMP_SIZE: nat := 8

  /** A library mapped into the process (`struct dl_map`); the patcher only
      needs its load base (`dlm_load_base`). Two patches for the same library
      share the same object. */
  class DlMap {
    const loadBase: u64

    constructor (base: u64)
      ensures loadBase == base
    {
      loadBase := base;
    }
  }

  /** A place in the patch that refers to a static variable of the target
      (`struct static_sym_s`). `patchAddress` is relative to the patch's load
      base; `targetValue` is the generator's interim value (Rn + Do - Dn in
      the derivation at patcher/patch.c:400-425); `patchSize` is the width of
      the field in bytes. */
  datatype StaticSym = StaticSym(patchAddress: u64, targetValue: u64, patchSize: nat)

  /** A function the patch replaces (`struct func_jump_s`): its offsets in the
      target and in the patch, its run-time address once tuned, the jump
      instruction that redirects it and the original code that jump overwrites. */
  datatype FuncJump = FuncJump(funcValue: u64, patchValue: u64, funcAddr: u64,
                               funcJump: seq<byte>, code: seq<byte>)

  /** A loaded patch (`struct patch_s`). Its function jumps are tuned in place. */
  class Patch {
    const bid: string
    const targetDlm: DlMap
    const patchDlm: DlMap
    const staticSyms: seq<StaticSym>
    var funcJumps: seq<FuncJump>

    constructor (bid: string, targetDlm: DlMap, patchDlm: DlMap,
                 staticSyms: seq<StaticSym>, funcJumps: seq<FuncJump>)
      ensures this.bid == bid && this.targetDlm == targetDlm && this.patchDlm == patchDlm
      ensures this.staticSyms == staticSyms && this.funcJumps == funcJumps
    {
      this.bid := bid;
      this.targetDlm := targetDlm;
      this.patchDlm := patchDlm;
      this.staticSyms := staticSyms;
      this.funcJumps := funcJumps;
    }

    /** tune_patch_func_jump on jump i: its run-time address is set first;
        `jumpSize` and `readErr` are what x86_jmpq_instruction and
        read_func_jump_code return. */
    method TuneFuncJump(i: nat, jumpSize: int, readErr: int) returns (err: int)
      requires i < |funcJumps|
      modifies this
      ensures var o := TuneSpec(old(funcJumps[i]), targetDlm.loadBase, jumpSize, readErr);
        err == o.err && funcJumps == old(funcJumps)[i := o.state]
    {
      var fj := funcJumps[i];
      funcJumps := funcJumps[i := fj.(funcAddr := Wrap64(targetDlm.loadBase + fj.funcValue))];
      if jumpSize < 0 {
        return jumpSize;
      }
      err := readErr;
    }
  }

  /** The result of a C function returning an error code, with the state it leaves. */
  datatype Outcome<S> = Outcome(err: int, state: S)

  /** `process_write_data`'s error code together with the memory it leaves. */
  function WriteOutcome(m: Bytes, addr: u64, data: seq<byte>): Outcome<Bytes>
  {
    Outcome(WriteError(m, addr, data), WriteSpec(m, addr, data))
  }

  // ---------------------------------------------------------------------------
  // Static variable references

  /** Where in the process the reference lies. */
  function PatchRefAddr(patchBase: u64, ss: StaticSym): u64
  {
    Wrap64(patchBase + ss.patchAddress)
  }

  /** The offset written into the reference. */
  function Reloc(targetBase: u64, patchBase: u64, ss: StaticSym): u64
  {
    Wrap64(ss.targetValue + targetBase - patchBase)
  }

  /** The address the fixed reference resolves to. */
  function VarAddr(targetBase: u64, patchBase: u64, ss: StaticSym): u64
  {
    Wrap64(PatchRefAddr(patchBase, ss) + Reloc(targetBase, patchBase, ss) + ss.patchSize)
  }

  /** The reference resolves to a place that depends on the target's load base
      only, wherever the patch itself is loaded. */
  lemma VarAddrIndependentOfPatchBase(targetBase: u64, patchBase: u64, ss: StaticSym)
    ensures VarAddr(targetBase, patchBase, ss)
         == Wrap64(targetBase + ss.targetValue + ss.patchAddress + ss.patchSize)
  {
    var reloc := Reloc(targetBase, patchBase, ss);
    Wrap64Add(patchBase + ss.patchAddress, reloc + ss.patchSize);
    Wrap64Add(ss.targetValue + targetBase - patchBase, patchBase + ss.patchAddress + ss.patchSize);
  }

  /** The overflow test of apply_static_ref: the sign bit of the field, then the
      bits above the field once the value is folded to its non-negative form. */
  function RelocOverflows(reloc: u64, size: nat): bool
    requires 1 <= size < 8
  {
    var bits := 8 * size;
    var sign := BitAnd(Shr(reloc, bits - 1), 1);
    Shr(if sign != 0 then Not64(reloc) else reloc, bits) != 0
  }

  /** `x`, read as a signed 64-bit value, fits a signed field of `size` bytes. */
  predicate FitsSigned(x: u64, size: nat)
    requires 1 <= size <= 8
  {
    Pow2Constants();
    -(Pow2(8 * size - 1) as int) <= ToSigned(x, 64) < Pow2(8 * size - 1)
  }

  /** x == P*q + r with r < P: halving by 2P halves the quotient. */
  lemma HalfQuotient(x: nat, P: nat, q: nat, r: nat)
    requires P > 0 && x == P * q + r && r < P
    ensures x / (2 * P) == q / 2
  {
    var h, e := q / 2, q % 2;
    assert P * q == P * (2 * h) + P * e;
    assert P * (2 * h) == (2 * P) * h;
    if e == 0 {
      assert P * e == 0;
    } else {
      assert P * e == P;
    }
    DivUnique(x, 2 * P, h, P * e + r);
  }

  /** The three places a multiple P*q of the digit P can lie below P*Q. */
  lemma DigitProduct(P: nat, Q: nat, q: nat)
    requires P > 0 && q < Q
    ensures P * q == 0 <==> q == 0
    ensures q == Q - 1 ==> P * q == P * Q - P
    ensures 0 < q < Q - 1 ==> P <= P * q <= P * Q - 2 * P
  {
    if q == Q - 1 {
      MulPred(Q, P);
      assert (Q - 1) * P == P * q;
    } else if q > 0 {
      MulAtLeast(P, q);
      MulAtLeast(P, Q - 1 - q);
      assert P * (Q - 1 - q) == P * Q - P - P * q;
    }
  }

  /** The two's-complement value of x == pq + r, with pq a multiple of the
      digit P lying in one of the places DigitProduct allows, lies in [-P, P)
      exactly when pq is the lowest or the highest of them. */
  lemma SignedWindow(x: u64, P: nat, pq: nat, r: nat)
    requires 0 < P <= 0x8000_0000_0000_0000 && x == pq + r && r < P && Pow2(64) == U64_LIMIT
    requires pq == 0 || pq == U64_LIMIT - P || P <= pq <= U64_LIMIT - 2 * P
    ensures (-(P as int) <= ToSigned(x, 64) < P) <==> (pq == 0 || pq == U64_LIMIT - P)
  {
    Pow2Constants();
  }

  /** The digits of a 64-bit value in base P = 2^(8 size - 1). */
  lemma Digits(size: nat) returns (P: nat, Q: nat)
    requires 1 <= size < 8
    ensures P == Pow2(8 * size - 1) && Pow2(8 * size) == 2 * P
    ensures 0 < P <= 0x8000_0000_0000_0000 && P * Q == U64_LIMIT && Q % 2 == 0
  {
    var b := 8 * size;
    P := Pow2(b - 1);
    Q := 2 * Pow2(64 - b);
    Pow2Constants();
    Pow2Add(b - 1, 65 - b);
    assert Pow2(65 - b) == Q;
    Pow2Monotonic(b - 1, 63);
  }

  /** The overflow test in terms of the top digits of `reloc`. */
  lemma OverflowDigits(reloc: u64, size: nat, P: nat, Q: nat, q: nat, r: nat)
    requires 1 <= size < 8 && P == Pow2(8 * size - 1) && Pow2(8 * size) == 2 * P
    requires P > 0 && P * Q == U64_LIMIT && reloc == P * q + r && r < P && q < Q
    ensures RelocOverflows(reloc, size) <==> (if q % 2 == 0 then q / 2 else (Q - 1 - q) / 2) != 0
  {
    var b := 8 * size;
    DivUnique(reloc, P, q, r);
    assert Shr(reloc, b - 1) == q;
    AndOne(q);
    HalfQuotient(reloc, P, q, r);
    var c := Not64(reloc);
    assert P * Q - P * q - P == P * (Q - 1 - q);
    assert c == P * (Q - 1 - q) + (P - 1 - r);
    HalfQuotient(c, P, Q - 1 - q, P - 1 - r);
  }

  /** The overflow test rejects exactly the offsets that do not fit the field. */
  lemma RelocOverflowsIff(reloc: u64, size: nat)
    requires 1 <= size < 8
    ensures RelocOverflows(reloc, size) <==> !FitsSigned(reloc, size)
  {
    var P, Q := Digits(size);
    DivNonNegative(reloc, P);
    var q: nat, r: nat := reloc / P, reloc % P;
    DivBelow(reloc, P, Q);
    OverflowDigits(reloc, size, P, Q, q, r);
    TopDigitParity(q, Q);
    FitsSignedDigits(reloc, size, P, Q, q, r);
  }

  /** A field of `size` bytes holds `reloc` exactly when its top digit in
      base P = 2^(8 size - 1) is the lowest or the highest. */
  lemma FitsSignedDigits(reloc: u64, size: nat, P: nat, Q: nat, q: nat, r: nat)
    requires 1 <= size < 8 && P == Pow2(8 * size - 1) && 0 < P <= 0x8000_0000_0000_0000
    requires P * Q == U64_LIMIT && reloc == P * q + r && r < P && q < Q
    ensures FitsSigned(reloc, size) <==> (q == 0 || q == Q - 1)
  {
    DigitProduct(P, Q, q);
    Pow2Constants();
    SignedWindow(reloc, P, P * q, r);
  }

  /** With Q even, the folded high digit is zero exactly for the lowest and the highest digit. */
  lemma TopDigitParity(q: nat, Q: nat)
    requires Q % 2 == 0 && q < Q
    ensures ((if q % 2 == 0 then q / 2 else (Q - 1 - q) / 2) != 0) <==> !(q == 0 || q == Q - 1)
  {
  }

  /** The 8 bytes write_static_ref stores: the field's bytes, then either the
      bytes read back (width 4) or the rest of the uninitialised local buffer. */
  function StaticRefBytes(current: seq<byte>, offset: u64, size: nat, stale: seq<byte>): (r: seq<byte>)
    requires size <= 8 && |stale| == 8 && |current| == 8
  {
    if size == 4 then LeBytes(offset, 4) + current[4..] else LeBytes(offset, size) + stale[size..]
  }

  /** write_static_ref on memory `m`; `stale` is the indeterminate content of
      its local 8-byte buffer. */
  function WriteStaticRefSpec(m: Bytes, addr: u64, offset: u64, size: nat, stale: seq<byte>): Outcome<Bytes>
    requires size <= 8 && |stale| == 8
  {
    if size == 4 then
      var rd := ReadSpec(m, addr, 8);
      if rd.err != 0 then Outcome(rd.err, m)
      else WriteOutcome(m, addr, StaticRefBytes(rd.data, offset, size, stale))
    else WriteOutcome(m, addr, StaticRefBytes(stale, offset, size, stale))
  }

  /** The field's bytes come first; what follows is kept or stale. */
  lemma StaticRefBytesFacts(current: seq<byte>, offset: u64, size: nat, stale: seq<byte>)
    requires size <= 8 && |stale| == 8 && |current| == 8
    ensures var b := StaticRefBytes(current, offset, size, stale);
      && |b| == 8 && b[..size] == LeBytes(offset, size)
      && (size == 4 ==> b[4..] == current[4..])
      && (size != 4 ==> b[size..] == stale[size..])
      && (size == 8 ==> LeValue(b) == offset)
  {
    var b := StaticRefBytes(current, offset, size, stale);
    assert b[..size] == LeBytes(offset, size);
    if size == 8 {
      LeRoundTrip64(offset);
      assert LeBytes(offset, 8) == b;
    }
  }

  /** What write_static_ref does to the 8 bytes at `addr` and to the rest of memory. */
  lemma WriteStaticRefEffect(m: Bytes, addr: u64, offset: u64, size: nat, stale: seq<byte>)
    requires size <= 8 && |stale| == 8
    ensures var o := WriteStaticRefSpec(m, addr, offset, size, stale);
      && o.state.Keys == m.Keys
      && (o.err == 0 <==> Mapped(m, addr, 8))
      && (o.err != 0 ==> o.err == -EFAULT && o.state == m)
      && (forall a :: a in m && Distance(addr, a) >= 8 ==> o.state[a] == m[a])
    ensures var o := WriteStaticRefSpec(m, addr, offset, size, stale);
      o.err == 0 ==>
        && Mapped(o.state, addr, 8)
        && Load(o.state, addr, 8)[..size] == LeBytes(offset, size)
        && (size == 4 ==> Load(o.state, addr, 8)[4..] == Load(m, addr, 8)[4..])
        && (size == 8 ==> LeValue(Load(o.state, addr, 8)) == offset)
        && (size != 4 ==> Load(o.state, addr, 8)[size..] == stale[size..])
  {
    if Mapped(m, addr, 8) {
      var current := if size == 4 then Load(m, addr, 8) else stale;
      var b := StaticRefBytes(current, offset, size, stale);
      assert WriteStaticRefSpec(m, addr, offset, size, stale).state == Store(m, addr, b);
      LoadStore(m, addr, b);
      StaticRefBytesFacts(current, offset, size, stale);
    }
  }

  /** apply_static_ref: the offset is rejected when it does not fit a field
      narrower than 8 bytes, and written otherwise. */
  function RefOutcome(m: Bytes, targetBase: u64, patchBase: u64, ss: StaticSym, stale: seq<byte>): Outcome<Bytes>
    requires 1 <= ss.patchSize <= 8 && |stale| == 8
  {
    var reloc := Reloc(targetBase, patchBase, ss);
    if ss.patchSize < 8 && RelocOverflows(reloc, ss.patchSize) then Outcome(-EINVAL, m)
    else WriteStaticRefSpec(m, PatchRefAddr(patchBase, ss), reloc, ss.patchSize, stale)
  }

  /** A reference the patcher can fix: its offset fits and its 8 bytes are mapped. */
  predicate RefFixable(m: Bytes, targetBase: u64, patchBase: u64, ss: StaticSym)
    requires 1 <= ss.patchSize <= 8
  {
    FitsSigned(Reloc(targetBase, patchBase, ss), ss.patchSize)
    && Mapped(m, PatchRefAddr(patchBase, ss), 8)
  }

  /** The error apply_static_ref reports for a reference that cannot be fixed. */
  function RefError(targetBase: u64, patchBase: u64, ss: StaticSym): int
    requires 1 <= ss.patchSize <= 8
  {
    if FitsSigned(Reloc(targetBase, patchBase, ss), ss.patchSize) then -EFAULT else -EINVAL
  }

  /** A full 8-byte field always fits. */
  lemma FitsEight(x: u64)
    ensures FitsSigned(x, 8)
  {
    Pow2Constants();
  }

  /** apply_static_ref fails exactly on the references that cannot be fixed,
      with -EINVAL for an offset that does not fit, before anything is written. */
  lemma RefOutcomeMeaning(m: Bytes, targetBase: u64, patchBase: u64, ss: StaticSym, stale: seq<byte>)
    requires 1 <= ss.patchSize <= 8 && |stale| == 8
    ensures var o := RefOutcome(m, targetBase, patchBase, ss, stale);
      && o.state.Keys == m.Keys
      && (o.err == 0 <==> RefFixable(m, targetBase, patchBase, ss))
      && (o.err != 0 ==> o.err == RefError(targetBase, patchBase, ss) && o.state == m)
  {
    var reloc := Reloc(targetBase, patchBase, ss);
    if ss.patchSize < 8 {
      RelocOverflowsIff(reloc, ss.patchSize);
    } else {
      FitsEight(reloc);
    }
    WriteStaticRefEffect(m, PatchRefAddr(patchBase, ss), reloc, ss.patchSize, stale);
  }

  predicate SizesValid(syms: seq<StaticSym>)
  {
    forall i :: 0 <= i < |syms| ==> 1 <= syms[i].patchSize <= 8
  }

  /** One indeterminate 8-byte buffer for each call of write_static_ref:
      each call has its own uninitialised local buffer. */
  predicate StaleBuffers(stales: seq<seq<byte>>, n: nat)
  {
    |stales| == n && forall k :: 0 <= k < n ==> |stales[k]| == 8
  }

  /** apply_static_refs: the references in order, stopping at the first error;
      reference k is written with the buffer `stales[k]`. */
  function StaticRefsSpec(m: Bytes, targetBase: u64, patchBase: u64, syms: seq<StaticSym>, stales: seq<seq<byte>>): Outcome<Bytes>
    requires SizesValid(syms) && StaleBuffers(stales, |syms|)
    decreases |syms|
  {
    if syms == [] then Outcome(0, m)
    else
      var o := RefOutcome(m, targetBase, patchBase, syms[0], stales[0]);
      if o.err != 0 then o else StaticRefsSpec(o.state, targetBase, patchBase, syms[1..], stales[1..])
  }

  lemma MappedSameKeys(m: Bytes, m': Bytes, addr: u64, n: nat)
    requires m.Keys == m'.Keys
    ensures Mapped(m, addr, n) <==> Mapped(m', addr, n)
  {
    assert forall a :: a in m <==> a in m';
  }

  /** syms[k] is the first reference that cannot be fixed. */
  predicate FirstUnfixable(m: Bytes, targetBase: u64, patchBase: u64, syms: seq<StaticSym>, k: nat)
    requires SizesValid(syms) && k < |syms|
  {
    && !RefFixable(m, targetBase, patchBase, syms[k])
    && forall k' :: 0 <= k' < k ==> RefFixable(m, targetBase, patchBase, syms[k'])
  }

  /** After a first reference that could be fixed, fixability of the rest is
      judged on the new memory as on the old, one position further on. */
  lemma FixableShift(m: Bytes, m': Bytes, targetBase: u64, patchBase: u64, syms: seq<StaticSym>)
    requires SizesValid(syms) && |syms| > 0 && m.Keys == m'.Keys
    requires RefFixable(m, targetBase, patchBase, syms[0])
    ensures (forall k :: 0 <= k < |syms| - 1 ==> RefFixable(m', targetBase, patchBase, syms[1..][k]))
        <==> (forall k :: 0 <= k < |syms| ==> RefFixable(m, targetBase, patchBase, syms[k]))
    ensures forall k :: 0 <= k < |syms| - 1 && FirstUnfixable(m', targetBase, patchBase, syms[1..], k) ==>
      FirstUnfixable(m, targetBase, patchBase, syms, k + 1)
  {
    var rest := syms[1..];
    forall k | 0 <= k < |rest|
      ensures RefFixable(m', targetBase, patchBase, rest[k]) <==> RefFixable(m, targetBase, patchBase, syms[k + 1])
    {
      MappedSameKeys(m, m', PatchRefAddr(patchBase, rest[k]), 8);
    }
    forall k | 0 <= k < |rest| && FirstUnfixable(m', targetBase, patchBase, rest, k)
      ensures FirstUnfixable(m, targetBase, patchBase, syms, k + 1)
    {
      forall k' | 0 <= k' < k + 1
        ensures RefFixable(m, targetBase, patchBase, syms[k'])
      {
        if k' > 0 {
          assert RefFixable(m', targetBase, patchBase, rest[k' - 1]);
        }
      }
    }
    if forall k :: 0 <= k < |rest| ==> RefFixable(m', targetBase, patchBase, rest[k]) {
      forall k | 0 <= k < |syms|
        ensures RefFixable(m, targetBase, patchBase, syms[k])
      {
        if k > 0 {
          assert RefFixable(m', targetBase, patchBase, rest[k - 1]);
        }
      }
    }
  }

  /** apply_static_refs returns 0 exactly when every reference can be fixed;
      otherwise it returns the error of the first one that cannot. */
  lemma {:induction false} StaticRefsOutcome(m: Bytes, targetBase: u64, patchBase: u64, syms: seq<StaticSym>, stales: seq<seq<byte>>)
    requires SizesValid(syms) && StaleBuffers(stales, |syms|)
    ensures var o := StaticRefsSpec(m, targetBase, patchBase, syms, stales);
      && o.state.Keys == m.Keys
      && (o.err == 0 <==> forall k :: 0 <= k < |syms| ==> RefFixable(m, targetBase, patchBase, syms[k]))
    ensures var o := StaticRefsSpec(m, targetBase, patchBase, syms, stales);
      o.err != 0 ==>
        exists k :: 0 <= k < |syms| && FirstUnfixable(m, targetBase, patchBase, syms, k) && o.err == RefError(targetBase, patchBase, syms[k])
    decreases |syms|
  {
    if syms != [] {
      var o := RefOutcome(m, targetBase, patchBase, syms[0], stales[0]);
      RefOutcomeMeaning(m, targetBase, patchBase, syms[0], stales[0]);
      if o.err == 0 {
        var rest := syms[1..];
        StaticRefsOutcome(o.state, targetBase, patchBase, rest, stales[1..]);
        FixableShift(m, o.state, targetBase, patchBase, syms);
        var r := StaticRefsSpec(o.state, targetBase, patchBase, rest, stales[1..]);
        assert StaticRefsSpec(m, targetBase, patchBase, syms, stales) == r;
        if r.err != 0 {
          var k :| 0 <= k < |rest| && FirstUnfixable(o.state, targetBase, patchBase, rest, k)
            && r.err == RefError(targetBase, patchBase, rest[k]);
          assert FirstUnfixable(m, targetBase, patchBase, syms, k + 1);
        }
      } else {
        assert StaticRefsSpec(m, targetBase, patchBase, syms, stales) == o;
        assert FirstUnfixable(m, targetBase, patchBase, syms, 0);
      }
    }
  }

  // ---------------------------------------------------------------------------
  // Function jumps

  /** write_func_jump: nothing is written in a dry run. */
  function WriteJumpSpec(m: Bytes, dryRun: bool, fj: FuncJump): Outcome<Bytes>
  {
    if dryRun then Outcome(0, m) else WriteOutcome(m, fj.funcAddr, fj.funcJump)
  }

  /** write_func_code: restores the original code, dry run or not. */
  function WriteCodeSpec(m: Bytes, fj: FuncJump): Outcome<Bytes>
  {
    WriteOutcome(m, fj.funcAddr, fj.code)
  }

  /** A write of `data` at `addr` either stores it, so that it reads back, or
      fails with -EFAULT and changes nothing. */
  lemma WriteOutcomeEffect(m: Bytes, addr: u64, data: seq<byte>)
    requires |data| == JUMP_SIZE
    ensures var o := WriteOutcome(m, addr, data);
      && o.state.Keys == m.Keys
      && (o.err == 0 <==> Mapped(m, addr, JUMP_SIZE))
      && (o.err != 0 ==> o.err == -EFAULT && o.state == m)
      && (o.err == 0 ==> Mapped(o.state, addr, JUMP_SIZE) && Load(o.state, addr, JUMP_SIZE) == data)
  {
    if Mapped(m, addr, JUMP_SIZE) {
      LoadStore(m, addr, data);
    }
  }

  /** The address part of tune_patch_func_jump: the function's run-time
      address is the target's load base plus its offset, set before the
      external steps whose results `jumpSize` (x86_jmpq_instruction) and
      `readErr` (read_func_jump_code) are. */
  function TuneSpec(fj: FuncJump, targetBase: u64, jumpSize: int, readErr: int): Outcome<FuncJump>
  {
    Outcome(if jumpSize < 0 then jumpSize else readErr,
            fj.(funcAddr := Wrap64(targetBase + fj.funcValue)))
  }

  /** compare_fj_addr. */
  function CompareFjAddr(fj: FuncJump, addr: u64): (r: int)
    ensures r == 0 || r == 1
    ensures r == 1 <==> fj.funcAddr == addr
  {
    if fj.funcAddr == addr then 1 else 0
  }

  /** func_jump_applied: 1 when the jump's bytes are in place, 0 when the jump
      has no address yet or other bytes are there, the read error otherwise. */
  function JumpApplied(m: Bytes, fj: FuncJump): (r: int)
    ensures r == 1 <==> fj.funcAddr != 0 && Mapped(m, fj.funcAddr, JUMP_SIZE)
                        && Load(m, fj.funcAddr, JUMP_SIZE) == fj.funcJump
    ensures r == 0 <==> fj.funcAddr == 0 || (Mapped(m, fj.funcAddr, JUMP_SIZE)
                        && Load(m, fj.funcAddr, JUMP_SIZE) != fj.funcJump)
    ensures r < 0 <==> fj.funcAddr != 0 && !Mapped(m, fj.funcAddr, JUMP_SIZE)
    ensures r < 0 ==> r == -EFAULT
  {
    if fj.funcAddr == 0 then 0
    else
      var rd := ReadSpec(m, fj.funcAddr, JUMP_SIZE);
      if rd.err != 0 then rd.err
      else if rd.data == fj.funcJump then 1 else 0
  }

  /** The first jump of `jumps` at `addr`: what find_function_jump finds with
      compare_fj_addr. */
  function FirstJumpAt(jumps: seq<FuncJump>, addr: u64): (r: Option<nat>)
    ensures r.Some? ==> r.value < |jumps| && jumps[r.value].funcAddr == addr
                        && forall k :: 0 <= k < r.value ==> jumps[k].funcAddr != addr
    ensures r.None? <==> forall k :: 0 <= k < |jumps| ==> jumps[k].funcAddr != addr
  {
    if jumps == [] then None
    else if jumps[0].funcAddr == addr then Some(0)
    else match FirstJumpAt(jumps[1..], addr)
      case None => None
      case Some(k) =>
        assert forall i :: 1 <= i <= k ==> jumps[i] == jumps[1..][i - 1];
        Some(k + 1)
  }

  /** A jump at `addr` with none before it is the one FirstJumpAt finds. */
  lemma FirstJumpUnique(jumps: seq<FuncJump>, addr: u64, j: nat)
    requires j < |jumps| && jumps[j].funcAddr == addr
    requires forall k :: 0 <= k < j ==> jumps[k].funcAddr != addr
    ensures FirstJumpAt(jumps, addr) == Some(j)
  {
  }

  /** With compare_fj_addr, find_function_jump finds what FirstJumpAt does and
      fails with -ENOENT only. */
  lemma CompareFindsFirst(jumps: seq<FuncJump>, addr: u64, compare: FuncJump -> int, ret: int, found: Option<nat>)
    requires forall j :: compare(j) == CompareFjAddr(j, addr)
    requires ret == 0 <==> found.Some?
    requires found.Some? ==> found.value < |jumps| && compare(jumps[found.value]) > 0
                             && forall k :: 0 <= k < found.value ==> compare(jumps[k]) == 0
    requires found.None? ==>
      (ret == -ENOENT && forall k :: 0 <= k < |jumps| ==> compare(jumps[k]) == 0)
      || (exists i :: 0 <= i < |jumps| && compare(jumps[i]) == ret < 0
                      && forall k :: 0 <= k < i ==> compare(jumps[k]) == 0)
    ensures ret == 0 || ret == -ENOENT
    ensures ret == 0 ==> found.Some? && FirstJumpAt(jumps, addr) == found
    ensures ret == -ENOENT ==> FirstJumpAt(jumps, addr).None?
  {
    if found.Some? {
      FirstJumpUnique(jumps, addr, found.value);
    }
  }

  /** What the search for an earlier jump needs to know of an applied patch. */
  datatype PatchView = PatchView(targetDlm: DlMap, jumps: seq<FuncJump>)

  /** The patch and jump find_previous_func_jump finds: among the patches
      before position `at`, the closest one for the same target library that
      has a jump at `addr`, and its first such jump. */
  function PreviousJump(patches: seq<PatchView>, at: nat, target: DlMap, addr: u64): (r: Option<(nat, nat)>)
    requires at <= |patches|
    ensures r.Some? ==> r.value.0 < at && r.value.1 < |patches[r.value.0].jumps|
    decreases at
  {
    if at == 0 then None
    else
      var k := at - 1;
      var j := FirstJumpAt(patches[k].jumps, addr);
      if patches[k].targetDlm == target && j.Some? then Some((k, j.value))
      else PreviousJump(patches, k, target, addr)
  }

  /** The patch holds a jump at `addr` and is for library `target`. */
  predicate Candidate(v: PatchView, target: DlMap, addr: u64)
  {
    v.targetDlm == target && FirstJumpAt(v.jumps, addr).Some?
  }

  /** The search finds the closest earlier candidate, or none if there is none. */
  lemma {:induction false} PreviousJumpMeaning(patches: seq<PatchView>, at: nat, target: DlMap, addr: u64)
    requires at <= |patches|
    ensures var r := PreviousJump(patches, at, target, addr);
      r.Some? ==>
        && r.value.0 < at && Candidate(patches[r.value.0], target, addr)
        && FirstJumpAt(patches[r.value.0].jumps, addr) == Some(r.value.1)
        && forall k :: r.value.0 < k < at ==> !Candidate(patches[k], target, addr)
    ensures PreviousJump(patches, at, target, addr).None? <==>
      forall k :: 0 <= k < at ==> !Candidate(patches[k], target, addr)
    decreases at
  {
    if at > 0 {
      PreviousJumpMeaning(patches, at - 1, target, addr);
    }
  }

  /** do_revert_func_jump, once the jump is known to be in place: reinstall
      the jump of the closest earlier patch for the same function, or restore
      the original code when there is none. */
  function RevertTail(m: Bytes, dryRun: bool, patches: seq<PatchView>, at: nat, target: DlMap, fj: FuncJump): Outcome<Bytes>
    requires at <= |patches|
  {
    match PreviousJump(patches, at, target, fj.funcAddr)
      case None => WriteCodeSpec(m, fj)
      case Some((k, j)) => WriteJumpSpec(m, dryRun, patches[k].jumps[j])
  }

  /** revert_func_jump. */
  function RevertSpec(m: Bytes, dryRun: bool, patches: seq<PatchView>, at: nat, target: DlMap, fj: FuncJump): Outcome<Bytes>
    requires at <= |patches|
  {
    var applied := JumpApplied(m, fj);
    if applied <= 0 then Outcome(applied, m) else RevertTail(m, dryRun, patches, at, target, fj)
  }

  /** A jump that is not in place is left alone, and a failed read changes nothing. */
  lemma RevertNotApplied(m: Bytes, dryRun: bool, patches: seq<PatchView>, at: nat, target: DlMap, fj: FuncJump)
    requires at <= |patches|
    ensures var o := RevertSpec(m, dryRun, patches, at, target, fj);
      && (fj.funcAddr == 0 ==> o == Outcome(0, m))
      && ((fj.funcAddr != 0 && Mapped(m, fj.funcAddr, JUMP_SIZE) && Load(m, fj.funcAddr, JUMP_SIZE) != fj.funcJump)
            ==> o == Outcome(0, m))
      && (fj.funcAddr != 0 && !Mapped(m, fj.funcAddr, JUMP_SIZE) ==> o == Outcome(-EFAULT, m))
  {
  }

  /** Reverting the only patch for a function brings its original code back. */
  lemma RevertRestoresCode(m: Bytes, dryRun: bool, patches: seq<PatchView>, at: nat, target: DlMap, fj: FuncJump)
    requires at <= |patches| && |fj.code| == JUMP_SIZE
    requires JumpApplied(m, fj) == 1 && PreviousJump(patches, at, target, fj.funcAddr).None?
    ensures var o := RevertSpec(m, dryRun, patches, at, target, fj);
      o.err == 0 && Mapped(o.state, fj.funcAddr, JUMP_SIZE) && Load(o.state, fj.funcAddr, JUMP_SIZE) == fj.code
  {
    WriteOutcomeEffect(m, fj.funcAddr, fj.code);
  }

  /** Reverting a patch stacked on an earlier one for the same function puts
      the earlier patch's jump back, or leaves memory alone in a dry run. */
  lemma RevertReinstallsPrevious(m: Bytes, dryRun: bool, patches: seq<PatchView>, at: nat, target: DlMap, fj: FuncJump)
    requires at <= |patches| && JumpApplied(m, fj) == 1
    requires PreviousJump(patches, at, target, fj.funcAddr).Some?
    ensures var (k, j) := PreviousJump(patches, at, target, fj.funcAddr).value;
      var prev := patches[k].jumps[j];
      var o := RevertSpec(m, dryRun, patches, at, target, fj);
      && prev.funcAddr == fj.funcAddr
      && (dryRun ==> o == Outcome(0, m))
      && (!dryRun && |prev.funcJump| == JUMP_SIZE ==>
            o.err == 0 && Mapped(o.state, fj.funcAddr, JUMP_SIZE) && Load(o.state, fj.funcAddr, JUMP_SIZE) == prev.funcJump)
  {
    var (k, j) := PreviousJump(patches, at, target, fj.funcAddr).value;
    var prev := patches[k].jumps[j];
    if !dryRun && |prev.funcJump| == JUMP_SIZE {
      WriteOutcomeEffect(m, fj.funcAddr, prev.funcJump);
    }
  }

  // ---------------------------------------------------------------------------
  // Iterating over a patch's function jumps

  /** The actors iterate_patch_function_jumps is called with. Tuning takes the
      results of its external steps for each jump; reverting needs the
      position of the patch in the list of applied patches. */
  datatype Actor =
    | WriteJumps
    | TuneJumps(jumpSizes: seq<int>, readErrs: seq<int>)
    | RevertJumps(at: nat)

  /** What the actors may change: process memory and the patch's jumps. */
  datatype JumpState = JumpState(mem: Bytes, jumps: seq<FuncJump>)

  /** What the actors read from the process context and the patch. */
  datatype Env = Env(dryRun: bool, patches: seq<PatchView>, target: DlMap)

  predicate ActorFits(actor: Actor, env: Env, n: nat)
  {
    match actor
      case WriteJumps => true
      case TuneJumps(sizes, errs) => n <= |sizes| && n <= |errs|
      case RevertJumps(at) => at <= |env.patches|
  }

  /** One call of the actor on jump i. */
  function Step(actor: Actor, env: Env, s: JumpState, i: nat): (r: Outcome<JumpState>)
    requires i < |s.jumps| && ActorFits(actor, env, i + 1)
    ensures |r.state.jumps| == |s.jumps|
  {
    match actor
      case WriteJumps =>
        var o := WriteJumpSpec(s.mem, env.dryRun, s.jumps[i]);
        Outcome(o.err, s.(mem := o.state))
      case TuneJumps(sizes, errs) =>
        var o := TuneSpec(s.jumps[i], env.target.loadBase, sizes[i], errs[i]);
        Outcome(o.err, s.(jumps := s.jumps[i := o.state]))
      case RevertJumps(at) =>
        var o := RevertSpec(s.mem, env.dryRun, env.patches, at, env.target, s.jumps[i]);
        Outcome(o.err, s.(mem := o.state))
  }

  /** iterate_patch_function_jumps from jump i on. */
  function IterateSpec(actor: Actor, env: Env, s: JumpState, i: nat, n: nat): (r: Outcome<JumpState>)
    requires i <= n <= |s.jumps| && ActorFits(actor, env, n)
    ensures |r.state.jumps| == |s.jumps|
    decreases n - i
  {
    if i == n then Outcome(0, s)
    else
      var o := Step(actor, env, s, i);
      if o.err != 0 then o else IterateSpec(actor, env, o.state, i + 1, n)
  }

  /** The state after calling the actor on jumps i .. k-1, each on the state
      the previous call left. */
  function Run(actor: Actor, env: Env, s: JumpState, i: nat, k: nat): (r: JumpState)
    requires i <= k <= |s.jumps| && ActorFits(actor, env, k)
    ensures |r.jumps| == |s.jumps|
    decreases k - i
  {
    if i == k then s else Run(actor, env, Step(actor, env, s, i).state, i + 1, k)
  }

  /** The actor succeeds on jumps i .. k-1. */
  predicate SucceedsUpTo(actor: Actor, env: Env, s: JumpState, i: nat, k: nat)
    requires i <= k <= |s.jumps| && ActorFits(actor, env, k)
  {
    forall k' :: i <= k' < k ==> Step(actor, env, Run(actor, env, s, i, k'), k').err == 0
  }

  lemma {:induction false} SucceedsUpToStep(actor: Actor, env: Env, s: JumpState, i: nat, k: nat)
    requires i < k <= |s.jumps| && ActorFits(actor, env, k)
    requires Step(actor, env, s, i).err == 0
    ensures SucceedsUpTo(actor, env, s, i, k) <==> SucceedsUpTo(actor, env, Step(actor, env, s, i).state, i + 1, k)
    ensures forall k' :: i + 1 <= k' <= k ==> Run(actor, env, s, i, k') == Run(actor, env, Step(actor, env, s, i).state, i + 1, k')
  {
    var s' := Step(actor, env, s, i).state;
    assert Run(actor, env, s, i, i) == s;
    forall k' | i + 1 <= k' <= k
      ensures Run(actor, env, s, i, k') == Run(actor, env, s', i + 1, k')
    {
    }
    var j := i + 1;
    if SucceedsUpTo(actor, env, s, i, k) {
      forall k' | j <= k' < k
        ensures Step(actor, env, Run(actor, env, s', j, k'), k').err == 0
      {
        assert Step(actor, env, Run(actor, env, s, i, k'), k').err == 0;
      }
    }
    if SucceedsUpTo(actor, env, s', i + 1, k) {
      forall k' | i <= k' < k
        ensures Step(actor, env, Run(actor, env, s, i, k'), k').err == 0
      {
        if k' > i {
          assert Step(actor, env, Run(actor, env, s', i + 1, k'), k').err == 0;
        }
      }
    }
  }

  /** Jump k is the first on which the actor fails, leaving the outcome o. */
  predicate FailsFirstAt(actor: Actor, env: Env, s: JumpState, i: nat, k: nat, o: Outcome<JumpState>)
    requires i <= k < |s.jumps| && ActorFits(actor, env, k + 1)
  {
    SucceedsUpTo(actor, env, s, i, k) && o == Step(actor, env, Run(actor, env, s, i, k), k)
  }

  /** The iteration returns 0 with the final state exactly when the actor
      succeeds on every jump, each call seeing the state the previous one left. */
  lemma {:induction false} IterateAllSucceed(actor: Actor, env: Env, s: JumpState, i: nat, n: nat)
    requires i <= n <= |s.jumps| && ActorFits(actor, env, n)
    ensures var o := IterateSpec(actor, env, s, i, n);
      (o.err == 0 <==> SucceedsUpTo(actor, env, s, i, n))
      && (o.err == 0 ==> o.state == Run(actor, env, s, i, n))
    decreases n - i
  {
    if i < n {
      var o := Step(actor, env, s, i);
      assert Run(actor, env, s, i, i) == s;
      if o.err == 0 {
        IterateAllSucceed(actor, env, o.state, i + 1, n);
        SucceedsUpToStep(actor, env, s, i, n);
      } else {
        assert !SucceedsUpTo(actor, env, s, i, n);
      }
    }
  }

  /** Otherwise it returns the first non-zero result, with the state that call left. */
  lemma {:induction false} IterateFirstError(actor: Actor, env: Env, s: JumpState, i: nat, n: nat)
    requires i <= n <= |s.jumps| && ActorFits(actor, env, n)
    ensures var o := IterateSpec(actor, env, s, i, n);
      o.err != 0 ==> exists k :: i <= k < n && FailsFirstAt(actor, env, s, i, k, o)
    decreases n - i
  {
    if i < n {
      var o := Step(actor, env, s, i);
      assert Run(actor, env, s, i, i) == s;
      if o.err == 0 {
        IterateFirstError(actor, env, o.state, i + 1, n);
        var r := IterateSpec(actor, env, o.state, i + 1, n);
        if r.err != 0 {
          var k :| i + 1 <= k < n && FailsFirstAt(actor, env, o.state, i + 1, k, r);
          SucceedsUpToStep(actor, env, s, i, k + 1);
          SucceedsUpToStep(actor, env, s, i, k);
          assert FailsFirstAt(actor, env, s, i, k, r);
        }
      } else {
        assert SucceedsUpTo(actor, env, s, i, i);
        assert FailsFirstAt(actor, env, s, i, i, o);
      }
    }
  }

  /** A jump once tuned against a target loaded at `targetBase`. */
  function Tuned(fj: FuncJump, targetBase: u64): FuncJump
  {
    fj.(funcAddr := Wrap64(targetBase + fj.funcValue))
  }

  /** Tuning changes only the jumps it reaches, and only their addresses; when
      it succeeds throughout, every jump in the range has its run-time address. */
  lemma {:induction false} TuneIterateEffect(env: Env, sizes: seq<int>, errs: seq<int>, s: JumpState, i: nat, n: nat)
    requires i <= n <= |s.jumps| && n <= |sizes| && n <= |errs|
    ensures var o := IterateSpec(TuneJumps(sizes, errs), env, s, i, n);
      && o.state.mem == s.mem
      && (forall k :: 0 <= k < |s.jumps| && !(i <= k < n) ==> o.state.jumps[k] == s.jumps[k])
      && (forall k :: i <= k < n ==>
            o.state.jumps[k] == s.jumps[k] || o.state.jumps[k] == Tuned(s.jumps[k], env.target.loadBase))
      && (o.err == 0 ==> forall k :: i <= k < n ==> o.state.jumps[k] == Tuned(s.jumps[k], env.target.loadBase))
    decreases n - i
  {
    if i < n {
      var actor := TuneJumps(sizes, errs);
      var o := Step(actor, env, s, i);
      assert o.state.jumps == s.jumps[i := Tuned(s.jumps[i], env.target.loadBase)];
      if o.err == 0 {
        TuneIterateEffect(env, sizes, errs, o.state, i + 1, n);
      }
    }
  }

  /** In a dry run, applying the jumps writes nothing and succeeds. */
  lemma {:induction false} DryRunWritesNothing(env: Env, s: JumpState, i: nat, n: nat)
    requires i <= n <= |s.jumps| && env.dryRun
    ensures IterateSpec(WriteJumps, env, s, i, n) == Outcome(0, s)
    decreases n - i
  {
    if i < n {
      DryRunWritesNothing(env, s, i + 1, n);
    }
  }

  /** Writing and reverting jumps change memory only, never the jumps. */
  lemma {:induction false} MemoryActorsKeepJumps(actor: Actor, env: Env, s: JumpState, i: nat, n: nat)
    requires i <= n <= |s.jumps| && ActorFits(actor, env, n) && !actor.TuneJumps?
    ensures IterateSpec(actor, env, s, i, n).state.jumps == s.jumps
    decreases n - i
  {
    if i < n {
      var o := Step(actor, env, s, i);
      if o.err == 0 {
        MemoryActorsKeepJumps(actor, env, o.state, i + 1, n);
      }
    }
  }

  /** find_function_jump: the first jump on which `compare` is non-zero decides;
      a positive result finds that jump, a negative one is returned. */
  method FindFunctionJump(jumps: seq<FuncJump>, compare: FuncJump -> int) returns (ret: int, found: Option<nat>)
    ensures ret == 0 <==> found.Some?
    ensures found.Some? ==> found.value < |jumps| && compare(jumps[found.value]) > 0
                            && forall k :: 0 <= k < found.value ==> compare(jumps[k]) == 0
    ensures found.None? ==>
      (ret == -ENOENT && forall k :: 0 <= k < |jumps| ==> compare(jumps[k]) == 0)
      || (exists i :: 0 <= i < |jumps| && compare(jumps[i]) == ret < 0
                      && forall k :: 0 <= k < i ==> compare(jumps[k]) == 0)
  {
    var i := 0;
    while i < |jumps|
      invariant 0 <= i <= |jumps|
      invariant forall k :: 0 <= k < i ==> compare(jumps[k]) == 0
    {
      ret := compare(jumps[i]);
      if ret < 0 {
        found := None;
        return;
      }
      if ret != 0 {
        ret, found := 0, Some(i);
        return;
      }
      i := i + 1;
    }
    ret, found := -ENOENT, None;
  }

  /** The snapshot of applied patches that the search for earlier jumps reads. */
  function ViewsOf(patches: seq<Patch>): (r: seq<PatchView>)
    reads patches
    ensures |r| == |patches|
    ensures forall i :: 0 <= i < |patches| ==> r[i] == PatchView(patches[i].targetDlm, patches[i].funcJumps)
  {
    seq(|patches|, i reads patches requires 0 <= i < |patches| => PatchView(patches[i].targetDlm, patches[i].funcJumps))
  }

  /** The local buffer of write_static_ref once the offset is copied in:
      `current` is what the buffer held (the bytes read back for width 4, its
      uninitialised content otherwise), and the field's low bytes come from
      `offset_small` for width 4 and from `offset` otherwise. */
  method StaticRefBuffer(current: seq<byte>, offset: u64, size: nat, stale: seq<byte>) returns (b: seq<byte>)
    requires size <= 8 && |current| == 8 && |stale| == 8
    requires size != 4 ==> current == stale
    ensures b == StaticRefBytes(current, offset, size, stale)
  {
    var bytes := new byte[8](i => if 0 <= i < |current| then current[i] else 0);
    assert bytes[..] == current;
    var off;
    if size == 4 {
      var offsetSmall := offset % Pow2(32);
      off := LeBytes(offsetSmall, 4);
      LeBytesLowBits(offset, 4);
      assert off[..4] == off;
    } else {
      off := LeBytes(offset, 8);
      LeBytesPrefix(offset, size, 8);
    }
    MemCpy(bytes, 0, off, size);
    b := bytes[..];
  }

  /** The process being patched (`struct process_ctx_s`): its memory, whether
      this is a dry run, the patch being applied (`P(ctx)`) and the list of
      patches already applied, oldest first. */
  class Process {
    const memory: RemoteMemory
    const dryRun: bool
    const current: Patch
    var appliedPatches: seq<Patch>

    constructor (memory: RemoteMemory, dryRun: bool, current: Patch, appliedPatches: seq<Patch>)
      ensures this.memory == memory && this.dryRun == dryRun && this.current == current
      ensures this.appliedPatches == appliedPatches
    {
      this.memory := memory;
      this.dryRun := dryRun;
      this.current := current;
      this.appliedPatches := appliedPatches;
    }

    function EnvOf(p: Patch): Env
      reads this, appliedPatches
    {
      Env(dryRun, ViewsOf(appliedPatches), p.targetDlm)
    }

    /** write_static_ref; `stale` is the indeterminate content of its local buffer. */
    method WriteStaticRef(addr: u64, offset: u64, offsetSize: nat, stale: seq<byte>) returns (err: int)
      requires offsetSize <= 8 && |stale| == 8
      modifies memory
      ensures Outcome(err, memory.bytes) == WriteStaticRefSpec(old(memory.bytes), addr, offset, offsetSize, stale)
    {
      var current := stale;
      if offsetSize == 4 {
        err, current := memory.Read(addr, 8);
        if err != 0 {
          return;
        }
      }
      var bytes := StaticRefBuffer(current, offset, offsetSize, stale);
      err := memory.Write(addr, bytes);
    }

    /** apply_static_ref for a reference of the current patch; the resolved
        address (VarAddr) is only logged. */
    method ApplyStaticRef(ss: StaticSym, stale: seq<byte>) returns (err: int)
      requires 1 <= ss.patchSize <= 8 && |stale| == 8
      modifies memory
      ensures Outcome(err, memory.bytes)
           == RefOutcome(old(memory.bytes), current.targetDlm.loadBase, current.patchDlm.loadBase, ss, stale)
    {
      var patchRefAddr := Wrap64(current.patchDlm.loadBase + ss.patchAddress);
      var reloc := Wrap64(ss.targetValue + current.targetDlm.loadBase - current.patchDlm.loadBase);
      ghost var tb, pb := current.targetDlm.loadBase, current.patchDlm.loadBase;
      assert patchRefAddr == PatchRefAddr(pb, ss) && reloc == Reloc(tb, pb, ss);
      if ss.patchSize < 8 {
        var relocBitSize := 8 * ss.patchSize;
        var relocSign := BitAnd(Shr(reloc, relocBitSize - 1), 1);
        var relocHighBits := Shr(if relocSign != 0 then Not64(reloc) else reloc, relocBitSize);
        assert (relocHighBits != 0) == RelocOverflows(reloc, ss.patchSize);
        if relocHighBits != 0 {
          assert RefOutcome(old(memory.bytes), tb, pb, ss, stale) == Outcome(-EINVAL, old(memory.bytes));
          return -EINVAL;
        }
      }
      assert RefOutcome(old(memory.bytes), tb, pb, ss, stale)
          == WriteStaticRefSpec(old(memory.bytes), patchRefAddr, reloc, ss.patchSize, stale);
      err := WriteStaticRef(patchRefAddr, reloc, ss.patchSize, stale);
    }

    /** apply_static_refs over the current patch's references. */
    method ApplyStaticRefs(stales: seq<seq<byte>>) returns (err: int)
      requires SizesValid(current.staticSyms) && StaleBuffers(stales, |current.staticSyms|)
      modifies memory
      ensures Outcome(err, memory.bytes)
           == StaticRefsSpec(old(memory.bytes), current.targetDlm.loadBase, current.patchDlm.loadBase,
                             current.staticSyms, stales)
    {
      var syms := current.staticSyms;
      var tb, pb := current.targetDlm.loadBase, current.patchDlm.loadBase;
      var i := 0;
      while i < |syms|
        invariant 0 <= i <= |syms|
        invariant StaticRefsSpec(old(memory.bytes), tb, pb, syms, stales)
               == StaticRefsSpec(memory.bytes, tb, pb, syms[i..], stales[i..])
      {
        assert syms[i..][0] == syms[i] && syms[i..][1..] == syms[i + 1..];
        assert stales[i..][0] == stales[i] && stales[i..][1..] == stales[i + 1..];
        err := ApplyStaticRef(syms[i], stales[i]);
        if err != 0 {
          return;
        }
        i := i + 1;
      }
      err := 0;
    }

    /** write_func_code. */
    method WriteFuncCode(fj: FuncJump) returns (err: int)
      modifies memory
      ensures Outcome(err, memory.bytes) == WriteCodeSpec(old(memory.bytes), fj)
    {
      err := memory.Write(fj.funcAddr, fj.code);
    }

    /** write_func_jump; the patch's own address is only logged. */
    method WriteFuncJump(fj: FuncJump) returns (err: int)
      modifies memory
      ensures Outcome(err, memory.bytes) == WriteJumpSpec(old(memory.bytes), dryRun, fj)
    {
      if dryRun {
        return 0;
      }
      err := memory.Write(fj.funcAddr, fj.funcJump);
    }

    /** func_jump_applied. */
    method FuncJumpApplied(fj: FuncJump) returns (applied: int)
      ensures applied == JumpApplied(memory.bytes, fj)
    {
      if fj.funcAddr == 0 {
        return 0;
      }
      var err, code := memory.Read(fj.funcAddr, JUMP_SIZE);
      if err != 0 {
        return err;
      }
      applied := if code == fj.funcJump then 1 else 0;
    }

    /** find_previous_func_jump for jump `fj` of the patch at position `at` of
        the applied list: the patches before it, closest first, that are for
        the same target library. */
    method FindPreviousFuncJump(p: Patch, at: nat, fj: FuncJump) returns (err: int, prev: Option<(nat, nat)>)
      requires at < |appliedPatches| && appliedPatches[at] == p
      ensures prev == PreviousJump(ViewsOf(appliedPatches), at, p.targetDlm, fj.funcAddr)
      ensures err == 0 <==> prev.Some?
      ensures err != 0 ==> err == -ENOENT
    {
      ghost var views := ViewsOf(appliedPatches);
      var compare := (j: FuncJump) => CompareFjAddr(j, fj.funcAddr);
      var k := at;
      while k > 0
        invariant 0 <= k <= at
        invariant PreviousJump(views, at, p.targetDlm, fj.funcAddr) == PreviousJump(views, k, p.targetDlm, fj.funcAddr)
      {
        var pp := appliedPatches[k - 1];
        assert views[k - 1] == PatchView(pp.targetDlm, pp.funcJumps);
        if pp.targetDlm == p.targetDlm {
          var found;
          err, found := FindFunctionJump(pp.funcJumps, compare);
          CompareFindsFirst(pp.funcJumps, fj.funcAddr, compare, err, found);
          if err != -ENOENT {
            prev := Some((k - 1, found.value));
            return;
          }
        }
        k := k - 1;
      }
      err, prev := -ENOENT, None;
    }

    /** do_revert_func_jump. */
    method DoRevertFuncJump(p: Patch, at: nat, fj: FuncJump) returns (err: int)
      requires at < |appliedPatches| && appliedPatches[at] == p
      modifies memory
      ensures Outcome(err, memory.bytes)
           == RevertTail(old(memory.bytes), dryRun, ViewsOf(appliedPatches), at, p.targetDlm, fj)
    {
      var prev;
      err, prev := FindPreviousFuncJump(p, at, fj);
      if err < 0 {
        if err != -ENOENT {
          return;
        }
        err := WriteFuncCode(fj);
        return;
      }
      var (k, j) := prev.value;
      err := WriteFuncJump(appliedPatches[k].funcJumps[j]);
    }

    /** revert_func_jump. */
    method RevertFuncJump(p: Patch, at: nat, fj: FuncJump) returns (err: int)
      requires at < |appliedPatches| && appliedPatches[at] == p
      modifies memory
      ensures Outcome(err, memory.bytes)
           == RevertSpec(old(memory.bytes), dryRun, ViewsOf(appliedPatches), at, p.targetDlm, fj)
    {
      var applied := FuncJumpApplied(fj);
      if applied <= 0 {
        return applied;
      }
      err := DoRevertFuncJump(p, at, fj);
    }

    /** iterate_patch_function_jumps: the actor on each jump of `p` in order,
        stopping at the first non-zero result. */
    method IteratePatchFunctionJumps(p: Patch, actor: Actor) returns (err: int)
      requires ActorFits(actor, EnvOf(p), |p.funcJumps|)
      requires actor.RevertJumps? ==> actor.at < |appliedPatches| && appliedPatches[actor.at] == p
      modifies memory, p
      ensures var o := IterateSpec(actor, old(EnvOf(p)), JumpState(old(memory.bytes), old(p.funcJumps)),
                                   0, old(|p.funcJumps|));
        err == o.err && memory.bytes == o.state.mem && p.funcJumps == o.state.jumps
    {
      ghost var env := EnvOf(p);
      ghost var s0 := JumpState(memory.bytes, p.funcJumps);
      var n := |p.funcJumps|;
      var i := 0;
      while i < n
        invariant 0 <= i <= n && |p.funcJumps| == n
        invariant !actor.TuneJumps? ==> p.funcJumps == s0.jumps && EnvOf(p) == env
        invariant IterateSpec(actor, env, s0, 0, n) == IterateSpec(actor, env, JumpState(memory.bytes, p.funcJumps), i, n)
      {
        err := CallActor(p, actor, i);
        if err != 0 {
          return;
        }
        i := i + 1;
      }
      err := 0;
    }

    /** The actor's call on jump i of `p`, as iterate_patch_function_jumps makes it. */
    method CallActor(p: Patch, actor: Actor, i: nat) returns (err: int)
      requires i < |p.funcJumps| && ActorFits(actor, EnvOf(p), i + 1)
      requires actor.RevertJumps? ==> actor.at < |appliedPatches| && appliedPatches[actor.at] == p
      modifies memory, p
      ensures var o := Step(actor, old(EnvOf(p)), JumpState(old(memory.bytes), old(p.funcJumps)), i);
        err == o.err && memory.bytes == o.state.mem && p.funcJumps == o.state.jumps
      ensures !actor.TuneJumps? ==> p.funcJumps == old(p.funcJumps) && EnvOf(p) == old(EnvOf(p))
    {
      var fj := p.funcJumps[i];
      match actor {
        case WriteJumps =>
          err := WriteFuncJump(fj);
        case TuneJumps(sizes, errs) =>
          err := p.TuneFuncJump(i, sizes[i], errs[i]);
        case RevertJumps(at) =>
          err := RevertFuncJump(p, at, fj);
      }
    }

    /** apply_func_jumps: writes the current patch's jumps; the error is dropped. */
    method ApplyFuncJumps() returns (ret: int)
      modifies memory, current
      ensures ret == 0
      ensures var o := IterateSpec(WriteJumps, old(EnvOf(current)),
                                   JumpState(old(memory.bytes), old(current.funcJumps)), 0, old(|current.funcJumps|));
        memory.bytes == o.state.mem && current.funcJumps == old(current.funcJumps)
    {
      ghost var s0 := JumpState(memory.bytes, current.funcJumps);
      ghost var env := EnvOf(current);
      var err := IteratePatchFunctionJumps(current, WriteJumps);
      MemoryActorsKeepJumps(WriteJumps, env, s0, 0, |s0.jumps|);
      ret := 0;
    }

    /** tune_patch_func_jumps: tunes every jump of `p`; the error is dropped.
        `jumpSizes` and `readErrs` are the external results for each jump. */
    method TunePatchFuncJumps(p: Patch, jumpSizes: seq<int>, readErrs: seq<int>) returns (ret: int)
      requires |p.funcJumps| <= |jumpSizes| && |p.funcJumps| <= |readErrs|
      modifies memory, p
      ensures ret == 0 && memory.bytes == old(memory.bytes)
      ensures IterateSpec(TuneJumps(jumpSizes, readErrs), old(EnvOf(p)),
                          JumpState(old(memory.bytes), old(p.funcJumps)), 0, old(|p.funcJumps|)).state.jumps
           == p.funcJumps
    {
      ghost var s0 := JumpState(memory.bytes, p.funcJumps);
      ghost var env := EnvOf(p);
      var err := IteratePatchFunctionJumps(p, TuneJumps(jumpSizes, readErrs));
      TuneIterateEffect(env, jumpSizes, readErrs, s0, 0, |s0.jumps|);
      ret := 0;
    }

    /** patch_revert_func_jumps for the patch at position `at` of the applied
        list; the error is dropped. */
    method PatchRevertFuncJumps(p: Patch, at: nat) returns (ret: int)
      requires at < |appliedPatches| && appliedPatches[at] == p
      modifies memory, p
      ensures ret == 0
      ensures var o := IterateSpec(RevertJumps(at), old(EnvOf(p)),
                                   JumpState(old(memory.bytes), old(p.funcJumps)), 0, old(|p.funcJumps|));
        memory.bytes == o.state.mem && p.funcJumps == old(p.funcJumps)
    {
      ghost var s0 := JumpState(memory.bytes, p.funcJumps);
      ghost var env := EnvOf(p);
      var err := IteratePatchFunctionJumps(p, RevertJumps(at));
      MemoryActorsKeepJumps(RevertJumps(at), env, s0, 0, |s0.jumps|);
      ret := 0;
    }

    /** find_patch_by_bid: the first applied patch with build ID `bid`, or null. */
    method FindPatchByBid(bid: string) returns (found: Patch?)
      ensures found == null <==> forall k :: 0 <= k < |appliedPatches| ==> appliedPatches[k].bid != bid
      ensures found != null ==>
        exists k :: 0 <= k < |appliedPatches| && appliedPatches[k] == found && found.bid == bid
                    && forall k' :: 0 <= k' < k ==> appliedPatches[k'].bid != bid
    {
      var i := 0;
      while i < |appliedPatches|
        invariant 0 <= i <= |appliedPatches|
        invariant forall k :: 0 <= k < i ==> appliedPatches[k].bid != bid
      {
        if appliedPatches[i].bid == bid {
          return appliedPatches[i];
        }
        i := i + 1;
      }
      found := null;
    }

    /** process_find_patch: -EEXIST when a patch with the current patch's
        build ID is already applied, 0 otherwise. */
    method ProcessFindPatch() returns (err: int)
      ensures err == 0 || err == -EEXIST
      ensures err == -EEXIST <==> exists k :: 0 <= k < |appliedPatches| && appliedPatches[k].bid == current.bid
    {
      var p := FindPatchByBid(current.bid);
      if p != null {
        return -EEXIST;
      }
      err := 0;
    }
  }
}
