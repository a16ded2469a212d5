# zkWasm event-table opcodes, instruction keys and witness buffer in Dafny

This project models four pieces of zkWasm, the zero-knowledge prover for
WebAssembly traces:

- **the relational-compare opcode** of the compact event table (`RelConfig`);
- **the select opcode** of the event table (`SelectConfig`);
- **instruction-table key packing** (`Inst::encode`, `Inst::encode_addr`, `InstTableChip::add_inst`);
- **the host witness buffer** (`WitnessContext`).

Each opcode config has three parts:
- a witness assignment that fills the cells of one event-table row from a trace step;
- polynomial identities over those cells;
- the stack-memory accesses and opcode the row claims.

**Field.** The circuits work over a prime field. The model keeps its modulus `p` as a parameter. `FieldModulus(p)` says that p is prime and larger than 2^65, so u64 values and their differences never wrap. A cell holds an integer, and an identity holds at a row when its value is 0 mod p. `F::from(x).invert().unwrap_or(F::zero())` becomes `Field.InvOrZero`. It is computed by the extended Euclidean algorithm, and the model proves that it inverts every nonzero residue.

**Compare opcode.** Identities, soundness and completeness are all proved for the unsigned operators:
- Every row whose cells are in range, that satisfies every identity and has the sign selector off, computes the selected comparison of `lhs` and `rhs` (`UnsignedSound`).
- Every honestly filled row satisfies the identities (`UnsignedComplete`).

`Assign` starts from an all-zero row and writes the cells in source order. It fails in two ways:
- `Unreachable` for a step that is not a comparison;
- `Unimplemented(op)` for each of the six operators whose arm is `todo!()`.

Otherwise it produces the row shape described by `AssignedShape`.

A row of that shape satisfies the identities exactly when the traced result is the true comparison (`AssignedRowSatisfied`).

**Select opcode.** Two guarded identities force `res` to be `val1` when `cond` is nonzero and `val2` otherwise. The model proves this for any `cond_inv` (soundness), and proves that the assigned `cond_inv` makes both identities hold (completeness). `Assign` fills the cells and the four memory lookups from the step and its memory entries.
- A step with fewer than four entries panics in the source. That is the `MissingMemoryEntry` outcome.
- The three reads always meet the lookup layout that `configure` binds.
- `configure` binds the write's is_i32 to the is_i32 cell, but `assign` writes `true`. So the write meets the layout exactly when the value type is i32. The model keeps this as the source has it.

**Instruction keys.** `encode_addr` packs five u16 location fields as base-2^16 digits. `encode` then appends the 64-bit opcode and the 64-bit aux word. The model proves:
- the bounds 2^80 and 2^208;
- decoding in both directions;
- injectivity, including for instructions built from traced `IEntry`s.

`add_inst` writes the key at the current row and advances the offset by one.

**Witness buffer.** `witness_insert` puts the value at index 0 and `witness_pop` takes the last element, so the buffer is a FIFO queue. A ghost queue in insertion order tracks it, and `WitnessPop` returns the queue's oldest value. For any sequence of calls, inserts and pops interleaved in any order, running them on the buffer gives the same pops as a reference FIFO queue (`RunIsFifo`).

**Layout.** One module per concern:
- `Arith` (division facts) and `Field` (the prime field) in `arith.dfy` and `field.dfy`;
- `Specs` (trace vocabulary) in `specs.dfy`;
- `OpRel` in `op_rel.dfy` and `OpSelect` in `op_select.dfy`;
- `ITable` in `itable.dfy`;
- `WitnessHelper` in `witness.dfy`.

Two behaviours are easy to misread, and the model follows the code on both:
- Select's `mops` is 1. It counts the one memory-writing operation, not all four accesses.
- Interleaving inserts and pops does not make the witness buffer LIFO-like. `RunIsFifo` shows that every pop returns the oldest value still present, whatever the interleaving.

## Model

| member | source | states |
|---|---|---|
| Field.InvOrZero | src/circuits/etable_compact/op_configure/op_rel.rs:277-278 | the inverse-or-zero is a field element; it is 0 for a value that is zero in the field, and a value times it is 1 in the field otherwise |
| Specs.ToU32 | src/circuits/etable_compact/op_configure/op_rel.rs:260-261 | `x as u32` is x for a non-negative i32 and x + 2^32 for a negative one |
| OpRel.CompareDiff | src/circuits/etable_compact/op_configure/op_rel.rs:92-106 | defines the four "compare diff" expressions: `lhs + res_is_lt·diff − res_is_gt·diff − rhs`, the one-hot sum of the three order flags minus 1, `diff·res_is_eq` and `diff·diff_inv + res_is_eq − 1` |
| OpRel.CompareOp | src/circuits/etable_compact/op_configure/op_rel.rs:108-121 | defines the "compare op" expression: the six operator selectors summed, minus 1 |
| OpRel.CompareBytes | src/circuits/etable_compact/op_configure/op_rel.rs:123-128 | defines the "compare bytes" expression: `is_four_bytes + is_eight_bytes − 1` |
| OpRel.CompareLeadingBit | src/circuits/etable_compact/op_configure/op_rel.rs:130-144 | defines the two "compare leading bit" expressions: each operand's leading bit times 8 plus its remainder, minus its top nibble (nibble 7 for four bytes, 15 for eight) when `op_is_sign` is set |
| OpRel.CompareOpRes | src/circuits/etable_compact/op_configure/op_rel.rs:146-184 | defines the six "compare op res" expressions, one per operator selector, over the four sign quadrants of the operands' leading bits |
| OpRel.Opcode | src/circuits/etable_compact/op_configure/op_rel.rs:217-244 | defines the opcode expression: the Rel class shifted to the class position, plus the lt_u or le_u tag at argument 0 when its selector is set and the sign selector is off, plus the symbolic value type at argument 1 |
| OpRel.MTableLookup | src/circuits/etable_compact/op_configure/op_rel.rs:344-379 | slot First reads `rhs` at sp+1 and slot Second reads `lhs` at sp+2, both with the symbolic value type; slot Third writes `res` at sp+2 as an i32; slot Fourth is unused; every key carries the row's eid and its slot number |
| OpRel.Mops | src/circuits/etable_compact/op_configure/op_rel.rs:340-342 | defines `mops` as the constant 3 (its agreement with the claimed keys is `OpRel.ResourceDeltas`) |
| OpRel.SpDiff | src/circuits/etable_compact/op_configure/op_rel.rs:381-383 | defines `sp_diff` as the constant 1 (its agreement with the claimed keys is `OpRel.ResourceDeltas`) |
| OpRel.EqGadgetComplete | src/circuits/etable_compact/op_configure/op_rel.rs:277-279 | with `diff_inv` the inverse-or-zero of `diff` and `res_is_eq` set exactly when `diff` is 0, `diff·res_is_eq` and `diff·diff_inv + res_is_eq − 1` are both zero |
| OpRel.EqGadgetSound | src/circuits/etable_compact/op_configure/op_rel.rs:101-103 | for any `diff_inv`, the two equality identities force `res_is_eq` to be 1 exactly when `diff` is 0 |
| OpRel.CompareDiffSound | src/circuits/etable_compact/op_configure/op_rel.rs:96-103 | "compare diff" at an in-range row: each result flag matches `lhs == rhs`, `lhs < rhs` and `lhs > rhs` respectively, and `diff` is the operands' distance |
| OpRel.CompareOpSound | src/circuits/etable_compact/op_configure/op_rel.rs:112-118 | "compare op": the six operator selectors sum to 1 |
| OpRel.LeadingBitUnsigned | src/circuits/etable_compact/op_configure/op_rel.rs:134-141 | "compare leading bit" with `op_is_sign` 0 forces both leading bits and both remainders to 0 |
| OpRel.OpResUnsigned | src/circuits/etable_compact/op_configure/op_rel.rs:149-181 | "compare op res" with both leading bits 0 (the pos/pos quadrant): the selected operator ties `res` to the flags, e.g. lt gives `res = res_is_lt` and le gives `res = res_is_lt + res_is_eq` |
| OpRel.UnsignedSound | src/circuits/etable_compact/op_configure/op_rel.rs:92-184 | soundness: an in-range row meeting all five identities with the sign selector off selects exactly one operator, and `res` is that operator (eq, ne, lt, le, gt, ge) applied to `lhs`, `rhs` |
| OpRel.UnsignedComplete | src/circuits/etable_compact/op_configure/op_rel.rs:92-184 | completeness: a row filled honestly (flags from the order, distance, inverse-or-zero, one operator, zero leading bits, one byte width, the operator's result) meets all five identities |
| OpRel.ResourceDeltas | src/circuits/etable_compact/op_configure/op_rel.rs:340-383 | `mops` (3) is the number of keys `mtable_lookup` claims, and `sp_diff` (1) is reads minus writes among them |
| OpRel.AssignedRowSatisfied | src/circuits/etable_compact/op_configure/op_rel.rs:270-298 | a row with the shape `assign` gives it (four-byte, sign flag set, u32 operands, distance, inverse-or-zero, one-hot order flags, one lt/le selector) is in range and meets every identity exactly when the traced `value` is the true unsigned comparison |
| OpRel.AssignedOpcode | src/circuits/etable_compact/op_configure/op_rel.rs:217-244 | at an assigned row the opcode expression equals the Rel class tag plus the lt_u or le_u operator tag plus the i32 value type (code 6) shifted to the argument-1 position |
| OpRel.Assign | src/circuits/etable_compact/op_configure/op_rel.rs:246-334 | a non-comparison step is `Unreachable` and the six unassigned operators are `Unimplemented`; otherwise the row has the assigned shape with `lhs`, `rhs` the operands as u32, and its three lookup cells are the keys `mtable_lookup` claims: read #1 of `rhs` at sp+1, read #2 of `lhs` at sp+2, write #3 of the result at sp+2, all at the current eid with type code 6 |
| OpRel.SourceTests | src/circuits/etable_compact/op_configure/op_rel.rs:389-484 | the six test instances (lt_u and le_u on (1,0), (1,1), (0,1), left pushed first), assigned with the traced result, meet every identity, with result 1 exactly for le_u(1,1), le_u(0,1) and lt_u(0,1) |
| OpSelect.CondIsZero | src/circuits/etable_v2/op_configure/op_select.rs:61-69 | defines the "select: cond is zero" expression `(1 − cond·cond_inv)·(res − val2)` |
| OpSelect.CondIsNotZero | src/circuits/etable_v2/op_configure/op_select.rs:71-78 | defines the "select: cond is not zero" expression `cond·(res − val1)` |
| OpSelect.Layout | src/circuits/etable_v2/op_configure/op_select.rs:83-125 | the four lookups `configure` binds are stack accesses of the row's own eid: reads of `cond`, `val2` and `val1` at sp+1, sp+2 and sp+3 (the first with is_i32 fixed to 1, the others with the is_i32 cell), and a write of `res` at sp+3 with the is_i32 cell, over the slot `val1` was read from |
| OpSelect.SpDiff | src/circuits/etable_v2/op_configure/op_select.rs:221-223 | defines `sp_diff` as the constant 2 (its agreement with the layout is `OpSelect.ResourceDeltas`) |
| OpSelect.Mops | src/circuits/etable_v2/op_configure/op_select.rs:225-227 | defines `mops` as the constant 1 (its agreement with the layout is `OpSelect.ResourceDeltas`) |
| OpSelect.MemoryWritingOps | src/circuits/etable_v2/op_configure/op_select.rs:229-231 | defines `memory_writing_ops` as the constant 1 (its agreement with the layout is `OpSelect.ResourceDeltas`) |
| OpSelect.SelectSound | src/circuits/etable_v2/op_configure/op_select.rs:61-78 | for any `cond_inv`, an in-range row meeting both identities has `res = val1` when `cond ≠ 0` and `res = val2` when `cond = 0` |
| OpSelect.SelectComplete | src/circuits/etable_v2/op_configure/op_select.rs:61-78 | with `cond_inv` the inverse-or-zero of `cond` and `res` the selected value, both identities hold |
| OpSelect.ResourceDeltas | src/circuits/etable_v2/op_configure/op_select.rs:221-231 | `sp_diff` (2) is reads minus writes among the four lookups `configure` binds; `mops` and `memory_writing_ops` (1 each) are the number of writes |
| OpSelect.Opcode | src/circuits/etable_v2/op_configure/op_select.rs:143-147 | the opcode reads no cell; shifting it right by the class shift gives the select class, and the bits below are clear |
| OpSelect.Assign | src/circuits/etable_v2/op_configure/op_select.rs:149-219 | a non-select step is `Unreachable`; fewer than four memory entries panics at the first missing index; otherwise the cells are `val1`, `val2`, `cond`, inverse-or-zero of `cond`, `res := result`, `is_i32 := (vtype == I32)`; reads #0..#2 take their eid interval from memory entries 0..2, and the write goes from the current eid to entry 3's end with is_i32 true; the reads meet the `configure` layout (cond at sp+1 with type 1, val2 at sp+2, val1 at sp+3), and the write (at sp+3) meets it exactly when the value type is i32 |
| OpSelect.AssignedRowSatisfied | src/circuits/etable_v2/op_configure/op_select.rs:163-169 | an assigned row is in range and meets both identities exactly when the traced result is what `select` computes |
| OpSelect.SelectZeroCondition | src/circuits/etable_v2/op_configure/op_select.rs:163-169 | selecting between 7 and 42 on condition 0 over i32: an assigned row meets the identities exactly when its result is 42, and its is_i32 cell is 1 |
| ITable.FromIEntry | src/itable.rs:23-36 | defines the instruction of a traced entry: both module ids are the module instance, the block is 0, the instruction id is the pc, and aux is 0 |
| ITable.Addr | src/itable.rs:60-73 | defines the address in closed form: the five u16 fields as base-2^16 digits, moid most significant (`ITable.EncodeAddr` is proved equal to it) |
| ITable.Key | src/itable.rs:51-58 | defines the key in closed form: `(addr·2^64 + opcode)·2^64 + aux` (`ITable.Encode` is proved equal to it) |
| ITable.AddrBound | src/itable.rs:60-73 | every instruction address is below 2^80 |
| ITable.KeyBound | src/itable.rs:51-58 | every instruction key is below 2^208 |
| ITable.AddrDigits | src/itable.rs:60-73 | each u16 field comes back out of the address by div/mod 2^16, iid lowest and moid highest |
| ITable.DecodeKey | src/itable.rs:51-73 | decoding a key (aux = key mod 2^64, opcode = next 64 bits, address fields = 16-bit digits of the rest) gives back the instruction |
| ITable.KeyDecode | src/itable.rs:51-73 | every number below 2^208 is the key of its decoding |
| ITable.KeyInjective | src/itable.rs:51-73 | instructions differing in any field have different keys |
| ITable.FromIEntryKey | src/itable.rs:23-36 | instructions built from traced entries have equal keys exactly when the entries agree on module instance, function, pc and opcode |
| ITable.EncodeAddr | src/itable.rs:60-73 | shifting by 16 and adding each field from 0 gives the address `(((moid·2^16 + mmid)·2^16 + fid)·2^16 + bid)·2^16 + iid`, below 2^80 |
| ITable.Encode | src/itable.rs:51-58 | `(addr·2^64 + opcode)·2^64 + aux` is the key, below 2^208; `aux` is its low 64 bits, `opcode` the next 64 and the address the rest |
| ITable.ColumnRows | src/itable.rs:86-95 | after `add_inst` on each instruction in turn, the column has exactly one row per instruction and row k holds the k-th instruction's key |
| ITable.Context.AddInst | src/itable.rs:86-95 | writes the key at the old offset, leaves other rows alone and advances the offset by exactly 1, keeping the column equal to the keys of the instructions added |
| WitnessHelper.WitnessContext.Default | crates/host/src/host/witness_helper/mod.rs:11-14 | the default buffer is empty |
| WitnessHelper.WitnessContext.WitnessInsert | crates/host/src/host/witness_helper/mod.rs:17-19 | `buf' = [x] + buf`; x joins the back of the queue of values in insertion order |
| WitnessHelper.WitnessContext.WitnessPop | crates/host/src/host/witness_helper/mod.rs:21-23 | on an empty buffer: failure and no change; otherwise returns `buf[|buf|−1]`, leaves `buf[..|buf|−1]`, and that value is the oldest one in the queue |
| WitnessHelper.ReverseAppend | crates/host/src/host/witness_helper/mod.rs:17-18 | adding at the back of the insertion order is adding at index 0 of the buffer |
| WitnessHelper.Run | crates/host/src/host/witness_helper/mod.rs:17-23 | defines a run of calls on the buffer as stored: an insert puts the value at index 0, a pop takes the last element, and a pop on an empty buffer aborts the run |
| WitnessHelper.RunIsFifo | crates/host/src/host/witness_helper/mod.rs:17-23 | any sequence of inserts and pops, in any interleaving, pops the same values from the buffer as from a FIFO queue, fails at the same point, and leaves the queue's values newest first |
| WitnessHelper.InsertAllThenPopAll | crates/host/src/host/witness_helper/mod.rs:17-23 | inserting x1..xn into an empty buffer and popping n times yields x1..xn in order and leaves the buffer empty |

## Left out

- The halo2 machinery is not modelled: `Context`, regions, `Expression`/`VirtualCells`, the cell allocator and `ConstraintBuilder` storage. It is foreign library code. Identities are functions from a row record to the expressions a constraint pushes, and `configure`'s allocation order is not represented.
- The `?` error paths of halo2 cell assignment are not modelled, because their causes are inside halo2.
- `MemoryTableConfig::encode_stack_read`/`encode_stack_write` and the lookup-cell internals are not part of this model. Their bodies are not available. Lookup keys are records of their arguments, so two keys match when their arguments match.
- `bn_to_field` is not modelled, so opcode constants and instruction keys stay natural numbers and are never reduced into the field. The field modulus is unknown.
- The values of `OPCODE_CLASS_SHIFT`, `OPCODE_ARG0_SHIFT`, `OPCODE_ARG1_SHIFT` and of the `OpcodeClass`/`RelOp` discriminants are parameters (`OpcodeConstants`). They are defined in a crate that is not part of this model.
- The numeric code of `VarType::I32` is taken to be 6 (`Specs.I32_CODE`). That is the value the compare config's symbolic value type gives for four-byte signed operands. The concrete and symbolic keys agree only under that code, and the enum is not part of this model.
- Common-range cells (the leading-bit remainders) are assumed to be below 2^64. The range table's bound is not part of this model.
- Signed comparisons and the eq, ne, gt_u, gt_s, ge_u and ge_s arms of compare `assign` are only recorded as `Unimplemented` failures. The source has `todo!()` there. Soundness of the identities is proved for rows with `op_is_sign` 0 only.
- An i64 select is not given a consistent write. Its `assign` writes is_i32 = true where `configure` expects the is_i32 cell (0), and the model keeps that as written.
- `MemoryRwEntry` keeps only the start and end eids. Those are the only fields select's `assign` reads.
- `IEntry` keeps only module instance, function, pc and opcode, the fields `From<IEntry>` reads.
- `Inst::new` is the `ITable.Inst` constructor itself, so it has no separate member.
- ITable.Context.constructor: a fresh context starting at row 0 is an assumption, because `Context::new` is not part of this model.
- WitnessHelper.WitnessContext.WitnessPop: the `unwrap` panic on an empty buffer is a `None` result that leaves the buffer unchanged. In `Run` and `Queue` the failure aborts the rest of the calls.
- Plugin registration is not modelled: `register_witness_foreign`, the `wasm_trace_size` closure, `downcast_mut`, `get_statics` and the u64-to-i64 conversion of popped values. This is runtime plumbing over wasmi.
- The end-to-end tests build circuits with the prover. Only their operand values appear, in `OpRel.SourceTests`.
