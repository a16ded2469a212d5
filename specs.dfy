/** The trace vocabulary the opcode configs consume: machine-width
    integers, value types, comparison kinds, the step information of one
    trace entry and the constants of the opcode encoding. These types live
    in the `specs` crate; only the variants the two modelled opcodes read
    are spelled out. */
module Specs {

  type u16 = x: int | 0 <= x < 0x1_0000
  type u32 = x: int | 0 <= x < 0x1_0000_0000
  type u64 = x: int | 0 <= x < 0x1_0000_0000_0000_0000
  type i32 = x: int | -0x8000_0000 <= x < 0x8000_0000

  const TWO_16: nat := 0x1_0000
  const TWO_32: nat := 0x1_0000_0000
  const TWO_64: nat := 0x1_0000_0000_0000_0000
  const TWO_65: nat := 0x2_0000_0000_0000_0000
  const TWO_80: nat := 0x1_0000_0000_0000_0000_0000
  const TWO_144: nat := TWO_80 * TWO_64
  const TWO_208: nat := TWO_144 * TWO_64

  datatype Option<+T> = None | Some(value: T)

  datatype Result<+T, +E> = Ok(value: T) | Err(error: E)

  /** `x as u32`: the two's-complement reinterpretation of an i32. */
  function ToU32(x: i32): (r: u32)
    ensures x >= 0 ==> r == x
    ensures x < 0 ==> r == x + TWO_32
  {
    x % TWO_32
  }

  /** A bool stored in a cell: 1 for true, 0 for false. */
  function B2I(b: bool): int {
    if b then 1 else 0
  }

  /** The value type a stack slot carries. */
  datatype VarType = I32 | I64

  /** The numeric code `VarType::I32 as u16` that the compare opcode puts in
      its stack keys. The enum's discriminants are in the specs crate; 6 is
      the code the compare config's symbolic value type gives for four
      signed bytes (4 + 0 + 1 + 1), which its lookups rely on. */
  const I32_CODE: nat := 6

  /** The eight comparison operators of `RelOp`. */
  datatype RelOp =
    | Eq | Ne | SignedGt | UnsignedGt | SignedGe | UnsignedGe | UnsignedLt | UnsignedLe

  /** The per-step payload of a trace entry; every variant other than the
      two read here is `OtherStep`. */
  datatype StepInfo =
    | I32Comp(op: RelOp, left: i32, right: i32, value: bool)
    | Select(val1: u64, val2: u64, cond: u64, result: u64, vtype: VarType)
    | OtherStep

  /** The machine state before a step: its event id and stack pointer. */
  datatype StepState = StepState(eid: nat, sp: nat)

  /** The opcode-encoding constants: the bit positions `OPCODE_CLASS_SHIFT`,
      `OPCODE_ARG0_SHIFT`, `OPCODE_ARG1_SHIFT` and the discriminants of the
      opcode classes and relational operators used here. Their values are
      defined outside this model and stay parameters. */
  datatype OpcodeConstants = OpcodeConstants(
    classShift: nat, arg0Shift: nat, arg1Shift: nat,
    relClass: nat, selectClass: nat, unsignedLtCode: nat, unsignedLeCode: nat)

  /** 2^n, for `x << n`. */
  function Pow2(n: nat): (r: nat)
    ensures r >= 1
  {
    if n == 0 then 1 else 2 * Pow2(n - 1)
  }
}
