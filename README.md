# nsb: symbol correlation, relative-instruction encoding and patch bookkeeping

nsb live-patches a running process: it loads a patch library into the
process and redirects the functions the patch replaces with jumps into it.
This project models, in Dafny, four pieces of the system:

- **Static** (`static.dfy`, from `generator/static.py`). The generator's
  symbol correlation.
  - The `vzpatch` name codec (`is_mangled`, `demangle`).
  - The scan of the patched ELF's `.dynsym` table, which keeps the mangled
    symbols.
  - `reverse_mapping`, which inverts a dictionary and asserts that it is
    injective.
  - A resolution pass. It maps each kept symbol's address in the patched
    ELF to a debug key, then to an address in the old ELF.
  - The ELF and debuginfo readers are inputs: a sequence of (name, value)
    entries and two `map<K, u64>` over an opaque key type.
- **X86** (`x86.dfy`, from `patcher/x86_64.c`). The relative-instruction
  encoder. It covers the opcode table for CALL rel32, JMP rel32, JMP rel8
  and the two 32-bit MOVs, and the displacement range test. The in-place
  update of an instruction buffer is a method on an `array<byte>`. The
  model also states what the written bytes mean to a CPU: the signed
  displacement relative to the next instruction, as the CALL, JMP and MOV
  entries of the Intel 64 and IA-32 Architectures Software Developer's
  Manual, Volume 2, Chapter 3, describe.
- **Patch** and **Memory** (`patch.dfy`, `memory.dfy`, from
  `patcher/patch.c`).
  - The relocation of static-variable references, with its signed overflow
    test, and the 4-byte/8-byte merge of `write_static_ref`.
  - Tuning, writing and reverting function jumps.
  - The searches over a patch's function jumps and over the list of applied
    patches.
  - The process's memory is a `RemoteMemory` object holding a partial map
    from 64-bit addresses to bytes. The architecture callbacks
    `process_read_data` and `process_write_data` work on it. A patch is a
    `Patch` object whose function jumps are tuned in place. The process
    context is a `Process` object.
  - Every state-changing method is proved equal to a specification
    function of the old state, and lemmas state what those functions
    mean.
- **TestTypes** (`test_types.dfy`, from `tests/test_types.h`). The result
  codes of the test programs: the test-type enum and the original and
  patched results.

`bits.dfy` holds the machine arithmetic. Values are `int`s restricted to
their C ranges. Wrap-around modulo 2^64 (`Wrap64`), two's-complement
reading (`ToSigned`), shifts, `&`, `|` and `~` are all written out, and
lemmas tie each bitwise form to its arithmetic meaning. `LeBytes` and
`LeValue` are the little-endian byte layout that `memcpy` of an integer
produces on x86-64. `wrappers.dfy` holds `Option`.

Two behaviours of the generator that a reader might not expect:

- `demangle` is not idempotent. It performs a single anchored
  substitution, so `"vzpatch_vzpatch_foo"` demangles to `"vzpatch_foo"`,
  and demangling that again gives `"foo"`. `DemangleTwice` states exactly
  when a second demangling changes nothing.
- Resolution is not all-or-nothing, and only one of the two debug maps is
  checked for injectivity.
  - The code prints each resolved line before the next lookup. An entry
    whose lookup raises `KeyError` ends the pass after the earlier entries
    have been reported. `Correlate` returns those reported entries.
  - Only the patched ELF's map goes through `reverse_mapping`. The old
    ELF's map is used without a check.

## Model

| member | source | states |
|---|---|---|
| Static.TransformAgreesWithDemangle | generator/static.py:11-24 | `is_mangled` holds exactly for names starting with `vzpatch`, underscore or not. A name that is not mangled is left unchanged by `demangle`. The transform passed to the patched ELF's debuginfo reader (line 53) equals `demangle` on every name. |
| Static.MangledHeadIsMangled | generator/static.py:11-12 | a name starting with `vzpatch_` is mangled |
| Static.DigitRun | generator/static.py:12 | the length of the leading run of ASCII digits: every character before it is a digit, and the one after it is not |
| Static.StripGroups | generator/static.py:12 | removing leading `<digits>_` groups never lengthens the string |
| Static.Demangle | generator/static.py:23-24 | the demangled name is never longer than the name |
| Static.StripGroupsShape | generator/static.py:12 | what `(\d+_)*` strips is a run of groups in the regex's own grammar, and what remains does not begin with another group (the match is maximal) |
| Static.StripGroupsSuffix | generator/static.py:12 | stripping groups leaves a suffix of the input |
| Static.DemangleIsSuffix | generator/static.py:23-24 | the demangled name is a suffix of the name |
| Static.DemangleDecomposes | generator/static.py:12-24 | a name starting with `vzpatch_` is `vzpatch_` + a group run + the result, and the result does not start with a group |
| Static.DemangleOfDecomposed | generator/static.py:12-24 | conversely, `demangle("vzpatch_" + g + r) == r` for every group run `g` and every `r` not starting with a group |
| Static.DemangleFixedPoint | generator/static.py:23-24 | `demangle(m) == m` exactly when `m` does not start with `vzpatch_` |
| Static.DemangleTwice | generator/static.py:24 | demangling twice equals demangling once exactly when the first result does not start with `vzpatch_` |
| Static.DemangleStripsGroups | generator/static.py:12-24 | `vzpatch_12_34_bar` becomes `bar`: every digit group is stripped |
| Static.DemangleStripsHead | generator/static.py:12-24 | `vzpatch_foo` becomes `foo`: the head alone is stripped when no group follows |
| Static.DemangleKeepExamples | generator/static.py:20-24 | `other_name` is unchanged; `vzpatchfoo` is mangled yet unchanged |
| Static.DemangleStripsOnce | generator/static.py:12-24 | `vzpatch_vzpatch_foo` becomes `vzpatch_foo`, and a second demangling gives `foo`, so `demangle` is not idempotent |
| Static.DemangleVariants | generator/static.py:24 | `vzpatch_1_foo` and `vzpatch_2_foo` both demangle to `foo` |
| Static.StripOneGroup | generator/static.py:12 | a leading `<digits>_` group is removed and stripping continues after it |
| Static.NoLeadingGroupAt | generator/static.py:12 | a string whose digit run is not followed by `_` starts with no group |
| Static.GroupRunPrefix | generator/static.py:12 | a group followed by a group run is a group run |
| Static.ShapeStep | generator/static.py:12 | one stripping step preserves the group-run shape of what was removed |
| Static.ShapeBase | generator/static.py:12 | without a leading group nothing is stripped, and what remains starts with no group |
| Static.DigitRunAtGroup | generator/static.py:12 | a group can end only where the leading digit run ends |
| Static.DigitRunAppend | generator/static.py:12 | text appended after a digit run's end does not change it |
| Static.StripGroupRun | generator/static.py:12 | stripping `g + r`, for a group run `g` and an `r` that starts with no group, gives exactly `r` |
| Static.ValuesAtMostKeys | generator/static.py:26-28 | a dictionary has no more distinct values than keys |
| Static.DistinctValuesIffInjective | generator/static.py:27-28 | the inverted dictionary has as many entries as `d` exactly when `d` is injective, so the assertion is the injectivity check |
| Static.ReverseMapping | generator/static.py:26-29 | None (the assertion fails) exactly when two keys share a value. Otherwise the result has the same size as `d`, its keys are `d`'s values and its values are `d`'s keys, `result[d[k]] == k` for every key, and `d[result[v]] == v` for every value. |
| Static.MangledEntriesStep | generator/static.py:36-46 | visiting one symbol keeps the earlier entries and appends `(index, demangle(name), st_value)` exactly when it is mangled |
| Static.MangledEntriesSound | generator/static.py:36-46 | every kept entry is a mangled symbol of the table, with its demangled name and its value |
| Static.MangledEntriesComplete | generator/static.py:36-39 | every mangled symbol of the table is kept |
| Static.MangledEntriesOrdered | generator/static.py:36-45 | kept entries are in table order; indices strictly increase |
| Static.NamesOfEntries | generator/static.py:44-46 | the names collected are exactly the demangled names of the mangled symbols |
| Static.NamesComplete | generator/static.py:36-46 | every mangled symbol's demangled name is in `sym_names` |
| Static.NamesSound | generator/static.py:44-46 | every name in `sym_names` is the demangled name of a mangled symbol |
| Static.EntryOrigin | generator/static.py:36-46 | each kept entry comes from a mangled symbol of the table and carries its demangled name |
| Static.Scan | generator/static.py:31-46 | the loop leaves `sym_info` equal to the kept entries in order, with strictly increasing indices, and `sym_names` equal to the set of their names, which is the set of demangled names of the mangled symbols |
| Static.ScanMergesVariants | generator/static.py:44-46 | two mangled variants of one name give two `sym_info` entries but one `sym_names` element |
| Static.Resolve | generator/static.py:58-61 | no lookup fails exactly when every entry resolves. Each reported line is `(index, o_di2addr[p_addr2di[addr]], name)` of the entry at the same position. When a lookup fails, the failing entry is the first unresolvable one and the lines before it have been reported. |
| Static.Correlate | generator/static.py:36-61 | the pass stops at the assertion exactly when the patched map is not injective. Otherwise lookups succeed, stop or fail at the first entry whose address has no debug key known in the old map. Each reported old address is the old map's address of the debug key whose patched address is the symbol's. |
| X86.GetOpInfoAsWritten | patcher/x86_64.c:14-54 | `x86_get_op_info` as written: the lookup reads past the end of the 0xec-entry `x86_ops` exactly for the bytes 0xec..0xff, because the `op >= OP_MAX` guard never fires; an entry it returns is non-zero |
| X86.IndirectOpcodeReadsPastTable | patcher/x86_64.c:44-49 | byte 0xff passes the guard and is read out of bounds |
| X86.GetOpInfo | patcher/x86_64.c:14-54 | the lookup with its guard against the table's size (corrected, see Findings): every entry it returns has an opcode shorter than the instruction and a displacement of at most 4 bytes |
| X86.CorrectedLookupAgrees | patcher/x86_64.c:44-54 | wherever the code as written stays inside the table, the corrected lookup returns the same entry or NULL |
| X86.KnownOpcodes | patcher/x86_64.c:14-54 | the corrected lookup is non-null exactly for opcodes e8, e9, eb, 89 and 8b, and NULL for every other byte |
| X86.OpSizes | patcher/x86_64.c:17-38 | e8/e9 are 5 bytes with a 1-byte opcode; eb is 2 bytes with a 1-byte opcode; 89/8b are 6 bytes with a 2-byte opcode. The displacement sizes are 4, 1 and 4. |
| X86.ToInt32 | patcher/x86_64.c:67-79 | the conversion to a 32-bit `int` lies in the `int` range |
| X86.CAbs | patcher/x86_64.c:68 | `abs` on an `int` gives the magnitude, and `INT_MIN` for `INT_MIN` |
| X86.MaskStep | patcher/x86_64.c:63-65 | each iteration of the mask loop adds one byte of ones to the mask |
| X86.MaskBounds | patcher/x86_64.c:63-65 | each mask byte widens the bound by a factor of 256 and stays within 64 bits |
| X86.IpGenOffset | patcher/x86_64.c:56-82 | after the loop, the mask is `2^(8 addr_size) - 1`. The result is 0 or -EINVAL. It is 0 exactly when `abs` of the `int`-truncated displacement `tgt_pos - next_ip` has no bit outside the mask, and then the truncated displacement is stored. Otherwise nothing is stored. |
| X86.Int32Bits | patcher/x86_64.c:67-79 | the stored `int` has the low 32 bits of the unsigned difference |
| X86.StoredBytes | patcher/x86_64.c:79-94 | the first `addr_size` bytes of the stored `int` are the low bytes of the difference, least significant first |
| X86.IpChangeRelative | patcher/x86_64.c:84-102 | returns 0 or -1, with 0 exactly when the offset passes the test. On success the buffer equals the old bytes with `addr_size` little-endian displacement bytes at the field; on failure it is unchanged. |
| Bits.MemCpy | patcher/x86_64.c:94 | `memcpy` of n bytes into a local buffer at a position: those bytes are replaced by the first n bytes of the source and nothing else changes. `write_static_ref` (patcher/patch.c, line 380) uses the same copy. |
| X86.ModifyInstruction | patcher/x86_64.c:104-120 | with `ModifyOutcome`, using the corrected lookup: an unknown opcode, including one from 0xec on, gives -EINVAL and an unchanged buffer. A rejected displacement gives -1 and an unchanged buffer. Otherwise the result is `instr_size`, and only `buf[cmd_size..instr_size)` changes, receiving the displacement relative to `cur_pos + instr_size`. |
| X86.RetargetOutcome | patcher/x86_64.c:115-119 | the outcome of `ip_change_relative` on the field after the opcode of a known instruction is the outcome `x86_modify_instruction` promises for that table entry (`RetargetedOutcome`) |
| X86.CreateInstruction | patcher/x86_64.c:122-127 | `buf[0]` holds `op` afterwards, even on failure, and the result is what `x86_modify_instruction` gives on the buffer with `op` stored |
| X86.LeValueBound | patcher/x86_64.c:94 | an n-byte little-endian field holds a value below `2^(8n)` |
| X86.ToSignedOfMod | patcher/x86_64.c:94 | a value in the signed range of a field reads back from its bytes unchanged |
| X86.DisplacementFacts | patcher/x86_64.c:67 | the `long` offset is the signed reading of the unsigned difference, and adding it to `next_ip` gives `tgt_pos` |
| X86.DisplacementResidue | patcher/x86_64.c:67 | the `long` offset is the unsigned difference or that minus 2^64, and agrees with it modulo 2^64 |
| X86.FieldValue | patcher/x86_64.c:94 | the written field holds the displacement modulo `2^(8a)`, and it reads back as the displacement exactly when that fits a signed `8a`-bit field |
| X86.EncodableOffsetLands | patcher/x86_64.c:94 | the written bytes send the CPU to `tgt_pos` exactly when the displacement fits the field as a signed value |
| X86.DecodedField | patcher/x86_64.c:94 | the CPU reads the written field as the displacement's low `8a` bits, sign-extended |
| X86.EncodableFromLanding | patcher/x86_64.c:94 | a written field that reaches the target holds the displacement itself, so the displacement fits the field |
| X86.AcceptedRel32 | patcher/x86_64.c:68-72 | for a 4-byte field the test rejects only a displacement whose low 32 bits are `INT_MIN` |
| X86.AcceptedRel8 | patcher/x86_64.c:68-72 | for a 1-byte field the test accepts a truncated displacement exactly when it is in -255..255 |
| X86.Rel8OutOfRangeAccepted | patcher/x86_64.c:68-94 | a short JMP at 0 to 202 is accepted and gets byte 200, which the CPU reads as -56, so it does not land on 202 |
| X86.Rel32TruncatedAccepted | patcher/x86_64.c:68-79 | a near JMP at 0 to 0x1_0000_000a is accepted with displacement 5 and lands on 10 |
| X86.EncodeRelative | patcher/x86_64.c:56-102 | corrected encoder: it gives bytes exactly when the displacement fits the field as a signed value, and those bytes send the CPU to the target. When it gives None, the as-written bytes would not reach the target. |
| X86.CorrectedAgreesInRange | patcher/x86_64.c:68-94 | for every displacement the corrected encoder admits, apart from `INT_MIN`, the as-written test accepts it and writes the corrected encoder's bytes |
| Memory.Load | patcher/patch.c:257 | definition, not a property: the n bytes read are the mapped bytes at `addr + i` |
| Memory.Store | patcher/patch.c:69-70 | a write creates no new address |
| Memory.LoadStore | patcher/patch.c:45-71 | what was written reads back |
| Memory.StoreOutside | patcher/patch.c:69-70 | bytes outside the written window are unchanged |
| Memory.ReadSpec | patcher/patch.c:257-259 | definition of the memory abstraction, not a property: a read succeeds exactly when all requested bytes are mapped, returns them, and otherwise fails with -EFAULT |
| Memory.WriteError | patcher/patch.c:69-70 | definition of the memory abstraction, not a property: a write fails, with -EFAULT, exactly when some target byte is unmapped |
| Memory.WriteSpec | patcher/patch.c:69-70 | definition of the memory abstraction, not a property: a failed write changes nothing |
| Memory.RemoteMemory.Read | patcher/patch.c:257 | `process_read_data` returns the error and bytes of `ReadSpec` |
| Memory.RemoteMemory.Write | patcher/patch.c:69-70 | `process_write_data` returns `WriteError` and leaves `WriteSpec` |
| Patch.Patch.TuneFuncJump | patcher/patch.c:159-174 | the jump's `func_addr` becomes the target's load base plus `func_value` (mod 2^64), set before the external steps. Their errors are returned: the jump builder's if negative, else the code reader's. No other jump changes. |
| Patch.VarAddrIndependentOfPatchBase | patcher/patch.c:412-437 | the resolved address `patch_ref_addr + reloc + patch_size` is `target base + target_value + patch_address + patch_size` modulo 2^64, whatever the patch's load base |
| Patch.SignedWindow | patcher/patch.c:439-452 | a 64-bit value fits the signed field exactly when its high digit is the lowest or the highest |
| Patch.OverflowDigits | patcher/patch.c:443-447 | the overflow test in terms of the high digit of `reloc` and its parity (the sign bit) |
| Patch.RelocOverflowsIff | patcher/patch.c:439-452 | for `patch_size < 8`, the sign-bit test on the high bits fires exactly when `reloc`, read as a signed 64-bit value, does not fit a signed `8 * patch_size`-bit field |
| Patch.FitsSignedDigits | patcher/patch.c:439-452 | a 64-bit value fits a signed `8 * size`-bit field exactly when its high digit in base `2^(8 size - 1)` is the lowest or the highest |
| Patch.StaticRefBytesFacts | patcher/patch.c:366-380 | the buffer written starts with the low `offset_size` bytes of `offset`, little-endian. With width 4 the other bytes are those read back; with other widths they are the stale buffer bytes. With width 8 the buffer is `offset`. |
| Patch.StaticRefBuffer | patcher/patch.c:366-380 | the local buffer after `memcpy` of the field: the first `offset_size` bytes of `offset` (of `offset_small` for width 4) over what the buffer held |
| Patch.WriteStaticRefEffect | patcher/patch.c:362-383 | No address is created. The result is 0 exactly when the 8 bytes at `addr` are mapped, and otherwise -EFAULT with memory unchanged; a failed read comes before any write. Bytes outside the 8 are unchanged. On success, bytes 0..size-1 hold `offset`. With width 4, bytes 4..7 are preserved; with width 8, the 8 bytes read back as `offset`. |
| Patch.FitsEight | patcher/patch.c:439 | an 8-byte field holds any offset, so it needs no test |
| Patch.RefOutcomeMeaning | patcher/patch.c:427-459 | `apply_static_ref` returns 0 exactly when the offset fits and the field is mapped. Otherwise it returns -EINVAL for an offset that does not fit, before any access, or -EFAULT, and memory is unchanged. No address is created. |
| Patch.StaticRefsOutcome | patcher/patch.c:461-476 | `apply_static_refs` returns 0 exactly when every reference can be fixed. Otherwise it returns the error of the first reference in index order that cannot. No address is created. |
| Patch.FixableShift | patcher/patch.c:461-476 | once the first reference has been fixed, each later reference can be fixed on the new memory exactly when it could on the old, so the first one that cannot is the same |
| Patch.WriteOutcomeEffect | patcher/patch.c:45-71 | writing a jump or the saved code either stores the 8 bytes, which read back, or fails with -EFAULT and changes nothing |
| Patch.CompareFjAddr | patcher/patch.c:286-291 | the result is 1 when the jump's `func_addr` equals the address, else 0 |
| Patch.JumpApplied | patcher/patch.c:246-262 | 1 exactly when the jump has an address and its 8 bytes are in memory. 0 exactly when it has no address or other mapped bytes are there. Negative exactly on a read failure, which is -EFAULT. |
| Patch.FirstJumpAt | patcher/patch.c:264-291 | the first jump at the address, with none before it; None exactly when no jump is at the address |
| Patch.FirstJumpUnique | patcher/patch.c:272-281 | a jump at the address with none before it is the one found |
| Patch.CompareFindsFirst | patcher/patch.c:264-291 | with `compare_fj_addr`, `find_function_jump` returns only 0 or -ENOENT. On 0 it finds the first jump at the address; on -ENOENT no jump is there. |
| Patch.PreviousJump | patcher/patch.c:293-314 | a found jump belongs to a patch strictly before `p` in the list |
| Patch.PreviousJumpMeaning | patcher/patch.c:293-314 | the patch found is the closest one before `p` that is for the same target library and holds a jump at the address, and the jump is its first such. None exactly when no patch before `p` qualifies. |
| Patch.RevertNotApplied | patcher/patch.c:333-344 | a jump with no address, or whose bytes are not in place, is left alone with result 0; a failed read returns -EFAULT and changes nothing |
| Patch.RevertRestoresCode | patcher/patch.c:316-331 | when the jump is in place and no earlier patch holds one for the function, reverting succeeds and the saved original code is back in memory, dry run or not |
| Patch.RevertReinstallsPrevious | patcher/patch.c:316-331 | when an earlier patch holds a jump for the same function, that jump is for the same address. A dry run leaves memory unchanged with result 0; otherwise its 8 bytes are written back and read back. |
| Patch.Step | patcher/patch.c:82-87 | one actor call keeps the number of jumps |
| Patch.IterateSpec | patcher/patch.c:73-90 | the iteration keeps the number of jumps |
| Patch.Run | patcher/patch.c:82-88 | running the actor over a range keeps the number of jumps |
| Patch.SucceedsUpToStep | patcher/patch.c:82-88 | after a successful first call, the rest of the iteration sees the state it left |
| Patch.IterateAllSucceed | patcher/patch.c:73-90 | `iterate_patch_function_jumps` returns 0 exactly when the actor succeeds on every jump in index order, each call seeing the state the previous one left; then the final state is that of the whole run |
| Patch.IterateFirstError | patcher/patch.c:82-88 | a non-zero result is the outcome of the first failing call, with the state that call left |
| Patch.TuneIterateEffect | patcher/patch.c:159-184 | tuning never touches memory and changes no jump outside the range. Each jump in the range is unchanged or has its run-time address. After a successful iteration every jump in the range has it. |
| Patch.DryRunWritesNothing | patcher/patch.c:92-101 | in a dry run, writing the jumps succeeds and changes nothing |
| Patch.MemoryActorsKeepJumps | patcher/patch.c:333-344 | writing and reverting change memory only, never the patch's jumps |
| Patch.FindFunctionJump | patcher/patch.c:264-284 | 0 exactly when a jump is found; the found jump is the first with a non-zero `compare`, and it is positive. With nothing found, either every `compare` is 0 and the result is -ENOENT, or the first non-zero `compare` is negative and is returned. |
| Patch.ViewsOf | patcher/patch.c:302-307 | definition, not a property: the projection of the applied patches' target libraries and jumps, position by position |
| Patch.Process.WriteStaticRef | patcher/patch.c:362-383 | `write_static_ref` returns the error and leaves the memory of `WriteStaticRefSpec` |
| Patch.Process.ApplyStaticRef | patcher/patch.c:427-459 | `apply_static_ref` on the current patch gives exactly `RefOutcome` with both load bases |
| Patch.Process.ApplyStaticRefs | patcher/patch.c:461-476 | `apply_static_refs` gives exactly `StaticRefsSpec` over the current patch's references in index order, each call of `write_static_ref` with its own stale buffer |
| Patch.Process.WriteFuncCode | patcher/patch.c:45-52 | writes the saved code at `func_addr`, even in a dry run |
| Patch.Process.WriteFuncJump | patcher/patch.c:54-71 | writes nothing and returns 0 in a dry run; otherwise writes the jump's 8 bytes at `func_addr` |
| Patch.Process.FuncJumpApplied | patcher/patch.c:246-262 | `func_jump_applied` returns `JumpApplied` of the current memory |
| Patch.Process.FindPreviousFuncJump | patcher/patch.c:293-314 | finds exactly `PreviousJump` over the patches before `p` in the applied list. The result is 0 exactly when one is found, else -ENOENT. |
| Patch.Process.DoRevertFuncJump | patcher/patch.c:316-331 | rewrites the previous patch's jump when one is found, else restores the saved code |
| Patch.Process.RevertFuncJump | patcher/patch.c:333-344 | `revert_func_jump` gives exactly `RevertSpec`: nothing is done unless the jump is in place |
| Patch.Process.IteratePatchFunctionJumps | patcher/patch.c:73-90 | the result, memory and jumps afterwards are those of `IterateSpec` from the old state |
| Patch.Process.CallActor | patcher/patch.c:83-85 | one actor call on jump i gives the result, memory and jumps of `Step`; writing and reverting change no jump |
| Patch.Process.ApplyFuncJumps | patcher/patch.c:92-101 | always returns 0; memory is that of the iterated jump writes, and the jumps are unchanged |
| Patch.Process.TunePatchFuncJumps | patcher/patch.c:176-184 | always returns 0; memory is unchanged, and the jumps are those of the tuning iteration |
| Patch.Process.PatchRevertFuncJumps | patcher/patch.c:346-355 | always returns 0; memory is that of the reverting iteration, and the jumps are unchanged |
| Patch.Process.FindPatchByBid | patcher/patch.c:593-602 | null exactly when no applied patch has the build ID; otherwise the first applied patch with it |
| Patch.Process.ProcessFindPatch | patcher/patch.c:604-615 | 0 or -EEXIST, with -EEXIST exactly when an applied patch has the current patch's build ID |
| TestTypes.Ordinal | tests/test_types.h:14-37 | every test type's value is below `TEST_TYPE_MAX` |
| TestTypes.TestTypeMaxCounts | tests/test_types.h:14-37 | `TEST_TYPE_MAX` is 14, the number of enumerators before it, each valued at its position |
| TestTypes.OrdinalRoundTrip | tests/test_types.h:14-37 | going from a test type to its value and back gives the test type |
| TestTypes.OriginalResult | tests/test_types.h:39-41 | original results lie in `[RESULT_CODE, RESULT_CODE + 14)` |
| TestTypes.PatchedResult | tests/test_types.h:39-42 | patched results lie in `[RESULT_CODE + 14, RESULT_CODE + 28)` |
| TestTypes.PatchedNeverOriginal | tests/test_types.h:41-42 | no patched result equals any original result |
| TestTypes.ResultsInjective | tests/test_types.h:41-42 | original and patched results each identify their test type |
| TestTypes.FunctionResultDecodes | tests/test_types.h:41-51 | `function_result` values are equal exactly when both the test type and the PATCH setting are equal |
| TestTypes.ErrorCodesDistinct | tests/test_types.h:11-51 | `TEST_ERROR` and `TEST_FAILED` differ from each other and from every result |

## Left out

- Printing is not modelled: the `print` calls of the generator and every `pr_*` call of the patcher. `VarAddr` is only logged in `apply_static_ref`, and `patch_addr` is only logged in `write_func_jump`.
- The ELF reader (`elftools`) and `debuginfo.read` are not modelled. Their results are inputs: the `.dynsym` table is a sequence of (name, value), and each debuginfo result is a map from an opaque key to an address. How a key is derived, and the name filter inside `debuginfo.read`, are not part of this model.
- `process_read_data` and `process_write_data` are not shown in the source. Memory is modelled as a map from addresses to bytes. A transfer either touches only mapped bytes and succeeds, or fails with -EFAULT and changes nothing. Partial transfers, other error codes and ptrace are not modelled.
- `dlm_load_base` is a constant field of `DlMap`. The rest of `struct dl_map` is not part of this model.
- `x86_jmpq_instruction` is not part of this model, and `read_func_jump_code` is left out because it does file I/O. `TuneFuncJump` and `TunePatchFuncJumps` therefore take their return values as parameters. The `func_jump` and `code` bytes those calls fill are left out, so tuning changes only `func_addr`. The `patch_addr` tuning computes only feeds the jump builder.
- Patch.Process.TunePatchFuncJumps: does not state the bytes `x86_jmpq_instruction` and `read_func_jump_code` put into each jump, because those functions are not modelled.
- `write_static_ref` copies its local buffer while the buffer is partly uninitialised. For widths other than 4, the bytes past the field are whatever the stack held. The model makes them a parameter, `stale` for one call and `stales[k]` for the k-th reference of `apply_static_refs`, since each call has its own uninitialised buffer. `WriteStaticRefEffect` states only that they are those bytes.
- Patch.RefOutcome, Patch.Process.ApplyStaticRef and Patch.Process.ApplyStaticRefs: require `1 <= patch_size <= 8`, because outside that range `write_static_ref` overruns its 8-byte buffer and `apply_static_ref` shifts by a negative amount, both undefined behaviour in C.
- The jumps' `func_jump` and `code` arrays have 8 bytes in C. In the model they are sequences, and `RevertRestoresCode` and `RevertReinstallsPrevious` take the 8-byte length as a hypothesis.
- Pointer aliasing between a patch's `func_jump_s` objects is not modelled: a patch's jumps are a sequence of values inside the `Patch` object. The actor's `void *data` argument is replaced by an `Actor` datatype naming the three actors.
- A patch's position in `applied_patches` is an index (`at`), and the searches return indices into the sequences rather than pointers. The exception is `find_patch_by_bid`, which returns the `Patch` object or null.
- The process-control parts of `patcher/patch.c` are not modelled (process control and I/O): `patch_process`, `unpatch_process`, `process_cease`, `process_resume`, `load_patch`, `patch_unload`, `init_context`, the `create_patch*` functions and the ELF helpers they call.
- `patcher/service.c` is not modelled because it is socket and remote-execution I/O. `tests/main.c` is not modelled because it is command-line parsing, signals and threads.
- X86.ModifyInstruction and X86.CreateInstruction: use the corrected opcode lookup. For a first byte from 0xec to 0xff the code as written reads past `x86_ops`, which is undefined behaviour with no value to model; the model gives -EINVAL there (see Findings).
- `abs(INT_MIN)` is undefined in C. `CAbs` gives `INT_MIN`, the value two's-complement hardware produces.
- The x86 buffers are `array<byte>`, with `byte` the integers 0..255, rather than an array of bit-vectors. The contents are the same and the proofs are cheaper.

## Findings

| source | as written | input that shows it | evidently intended | confidence | as-written member | corrected member |
|---|---|---|---|---|---|---|
| patcher/x86_64.c:68-72 | the range test compares `abs(offset)` with a mask of `addr_size` bytes, so a 1-byte field accepts any magnitude up to 255 | `x86_modify_instruction` on `[0xeb, 0]` at 0 with target 202: the displacement 200 is accepted and byte 0xc8 is written, which the CPU reads as -56, landing at 2 - 56 modulo 2^64 | accept only displacements in the signed range -128..127 of the field, so the jump lands on the target | high (not executed) | X86.Rel8OutOfRangeAccepted | X86.EncodeRelative |
| patcher/x86_64.c:68-79 | `abs` takes an `int`, so the 64-bit offset is truncated to 32 bits before the test, and the truncated value is what is stored | `x86_modify_instruction` on `[0xe9, 0, 0, 0, 0]` at 0 with target 0x1_0000_000a: the offset 0x1_0000_0005 is truncated to 5, accepted and written, and the jump lands at 10 | reject displacements outside the signed 32-bit range, so that a too-distant target is refused | medium (not executed) | X86.Rel32TruncatedAccepted | X86.EncodeRelative |
| patcher/x86_64.c:44-49 | `x86_ops[]` has no explicit size, so C sizes it by its largest designator `[OP_JMP]` to 0xec entries, while the guard rejects only `op >= OP_MAX` with `OP_MAX` 0x100, which no `unsigned char` reaches | `x86_modify_instruction` on a buffer starting with 0xff, the indirect CALL/JMP opcode: the guard passes and `x86_ops[0xff]` is read past the end of the table, which is undefined behaviour | reject every byte outside the table, so that every unknown opcode gives NULL and then -EINVAL | high (not executed) | X86.GetOpInfoAsWritten | X86.GetOpInfo |

`IndirectOpcodeReadsPastTable` exhibits the byte 0xff for the third row, and `KnownOpcodes` proves that the corrected lookup is NULL for every byte but the five known opcodes.

Within the range both tests accept, `CorrectedAgreesInRange` proves that `EncodeRelative` writes the same bytes as the code. `EncodableOffsetLands` proves that those bytes reach the target exactly when the displacement fits the field.
