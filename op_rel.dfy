/** The relational-compare opcode of the compact event table: the cells of
    one row, the polynomial identities its configuration registers, the
    witness assignment for one `I32Comp` step, the symbolic opcode and the
    stack-memory keys the row claims.

    A row is a record of integers standing for field elements; an identity
    is the list of expressions one constraint pushes, and it holds at a row
    when every expression is 0 modulo the field prime p. */
module OpRel {
  import opened Specs
  import opened Field

  /** The cells of one compare row. The three lookup cells hold the stack
      keys the row claims; None is a lookup cell left unassigned. */
  datatype RelRow = RelRow(
    isFourBytes: int, isEightBytes: int, isSign: int,
    lhs: int, rhs: int, diff: int,
    diffInv: int, resIsEq: int, resIsLt: int, resIsGt: int, res: int,
    lhsLeadingBit: int, rhsLeadingBit: int, lhsRemValue: int, rhsRemValue: int,
    opIsEq: int, opIsNe: int, opIsLt: int, opIsGt: int, opIsLe: int, opIsGe: int, opIsSign: int,
    lookupStackReadLhs: Option<StackKey>,
    lookupStackReadRhs: Option<StackKey>,
    lookupStackWriteRes: Option<StackKey>)

  /** A stack access as a memory-table lookup key: event id, index of the
      access within the step, stack address, value-type code and value. */
  datatype StackKey =
    | StackRead(eid: int, index: int, addr: int, vtype: int, value: int)
    | StackWrite(eid: int, index: int, addr: int, vtype: int, value: int)

  /** The four lookup slots an event-table row may fill. */
  datatype MLookupItem = First | Second | Third | Fourth

  /** Failures of `assign`: a step that is not a comparison reaches
      `unreachable!()`; a comparison operator without an assignment reaches
      `todo!()`. */
  datatype RelError = Unreachable | Unimplemented(op: RelOp)

  /** A row before `assign` writes anything: every cell 0. */
  const EmptyRow := RelRow(0, 0, 0, 0, 0, 0, 0, 0, 0, 0, 0, 0, 0, 0, 0,
                           0, 0, 0, 0, 0, 0, 0, None, None, None)

  predicate Bit(v: int) {
    v == 0 || v == 1
  }

  /** The range facts the cell allocator enforces for each cell kind: bit
      cells are 0 or 1, u64 cells below 2^64, common-range cells below the
      range table's bound (taken to be at most 2^64), unlimited cells any
      field element. */
  predicate CellsInRange(p: nat, r: RelRow) {
    && Bit(r.isFourBytes) && Bit(r.isEightBytes) && Bit(r.isSign)
    && 0 <= r.lhs < TWO_64 && 0 <= r.rhs < TWO_64 && 0 <= r.diff < TWO_64
    && InField(p, r.diffInv) && InField(p, r.res)
    && Bit(r.resIsEq) && Bit(r.resIsLt) && Bit(r.resIsGt)
    && Bit(r.lhsLeadingBit) && Bit(r.rhsLeadingBit)
    && 0 <= r.lhsRemValue < TWO_64 && 0 <= r.rhsRemValue < TWO_64
    && Bit(r.opIsEq) && Bit(r.opIsNe) && Bit(r.opIsLt) && Bit(r.opIsGt)
    && Bit(r.opIsLe) && Bit(r.opIsGe) && Bit(r.opIsSign)
  }

  /** `u4_expr(i)` of a u64 cell: its i-th 4-bit limb. */
  function Nibble(v: int, i: nat): int {
    (v / Pow2(4 * i)) % 16
  }

  // The identities registered by `configure`, one function per constraint.

  /** "compare diff" */
  function CompareDiff(r: RelRow): seq<int> {
    [ r.lhs + r.resIsLt * r.diff - r.resIsGt * r.diff - r.rhs,
      r.resIsGt + r.resIsLt + r.resIsEq - 1,
      r.diff * r.resIsEq,
      r.diff * r.diffInv + r.resIsEq - 1 ]
  }

  /** "compare op" */
  function CompareOp(r: RelRow): seq<int> {
    [ r.opIsEq + r.opIsNe + r.opIsLt + r.opIsGt + r.opIsLe + r.opIsGe - 1 ]
  }

  /** "compare bytes" */
  function CompareBytes(r: RelRow): seq<int> {
    [ r.isFourBytes + r.isEightBytes - 1 ]
  }

  /** "compare leading bit" */
  function CompareLeadingBit(r: RelRow): seq<int> {
    [ r.lhsLeadingBit * 8 + r.lhsRemValue
        - (r.isFourBytes * Nibble(r.lhs, 7) + r.isEightBytes * Nibble(r.lhs, 15)) * r.opIsSign,
      r.rhsLeadingBit * 8 + r.rhsRemValue
        - (r.isFourBytes * Nibble(r.rhs, 7) + r.isEightBytes * Nibble(r.rhs, 15)) * r.opIsSign ]
  }

  /** "compare op res", over the four sign quadrants of the operands. */
  function CompareOpRes(r: RelRow): seq<int> {
    var lPosRPos := (1 - r.lhsLeadingBit) * (1 - r.rhsLeadingBit);
    var lPosRNeg := (1 - r.lhsLeadingBit) * r.rhsLeadingBit;
    var lNegRPos := r.lhsLeadingBit * (1 - r.rhsLeadingBit);
    var lNegRNeg := r.lhsLeadingBit * r.rhsLeadingBit;
    [ r.opIsEq * (r.res - r.resIsEq),
      r.opIsNe * (r.res - 1 + r.resIsEq),
      r.opIsLt * (r.res - lNegRPos - lPosRPos * r.resIsLt - lNegRNeg * r.resIsGt),
      r.opIsLe * (r.res - lNegRPos - lPosRPos * r.resIsLt - lNegRNeg * r.resIsGt - r.resIsEq),
      r.opIsGt * (r.res - lPosRNeg - lPosRPos * r.resIsGt - lNegRNeg * r.resIsLt),
      r.opIsGe * (r.res - lPosRNeg - lPosRPos * r.resIsGt - lNegRNeg * r.resIsLt - r.resIsEq) ]
  }

  /** Every identity of the compare config holds at row r. */
  predicate Satisfied(p: nat, r: RelRow)
    requires p > 0
  {
    && AllZero(p, CompareDiff(r))
    && AllZero(p, CompareOp(r))
    && AllZero(p, CompareBytes(r))
    && AllZero(p, CompareLeadingBit(r))
    && AllZero(p, CompareOpRes(r))
  }

  /** The symbolic value type: 4 * is_four_bytes + 6 * is_eight_bytes + is_sign + 1. */
  function Vtype(r: RelRow): int {
    r.isFourBytes * 4 + r.isEightBytes * 6 + r.isSign + 1
  }

  /** The opcode expression the row offers to the instruction-table lookup. */
  function Opcode(c: OpcodeConstants, r: RelRow): int {
    c.relClass * Pow2(c.classShift)
    + r.opIsLe * (1 - r.opIsSign) * (c.unsignedLeCode * Pow2(c.arg0Shift))
    + r.opIsLt * (1 - r.opIsSign) * (c.unsignedLtCode * Pow2(c.arg0Shift))
    + Vtype(r) * Pow2(c.arg1Shift)
  }

  /** The opcode of an unsigned lt/le instruction on i32 operands. */
  function InstOpcode(c: OpcodeConstants, op: RelOp): int
    requires Implemented(op)
  {
    c.relClass * Pow2(c.classShift)
    + (if op == UnsignedLt then c.unsignedLtCode else c.unsignedLeCode) * Pow2(c.arg0Shift)
    + I32_CODE * Pow2(c.arg1Shift)
  }

  /** The stack key the row claims in each lookup slot (`mtable_lookup`):
      the first two slots read `rhs` and then `lhs` from the two slots above
      sp with the row's value type, the third writes `res` as an i32 over
      the second, and the fourth slot is unused. Every key is of the row's
      own event and carries its slot number. */
  function MTableLookup(r: RelRow, s: StepState, item: MLookupItem): (k: Option<StackKey>)
    ensures k.None? <==> item == Fourth
    ensures k.Some? ==> k.value.eid == s.eid && (k.value.StackWrite? <==> item == Third)
    ensures item == First ==> k.value.index == 1 && k.value.addr == s.sp + 1 && k.value.value == r.rhs
    ensures item == Second ==> k.value.index == 2 && k.value.addr == s.sp + 2 && k.value.value == r.lhs
    ensures item == Third ==> k.value.index == 3 && k.value.addr == s.sp + 2 && k.value.value == r.res
    ensures item != Third && k.Some? ==> k.value.vtype == Vtype(r)
    ensures item == Third ==> k.value.vtype == I32_CODE
  {
    match item
    case First => Some(StackRead(s.eid, 1, s.sp + 1, Vtype(r), r.rhs))
    case Second => Some(StackRead(s.eid, 2, s.sp + 2, Vtype(r), r.lhs))
    case Third => Some(StackWrite(s.eid, 3, s.sp + 2, I32_CODE, r.res))
    case Fourth => None
  }

  /** The keys of the filled slots, in slot order. */
  function Filled(slots: seq<Option<StackKey>>): seq<StackKey> {
    if slots == [] then []
    else (if slots[0].Some? then [slots[0].value] else []) + Filled(slots[1..])
  }

  function Accesses(r: RelRow, s: StepState): seq<StackKey> {
    Filled([MTableLookup(r, s, First), MTableLookup(r, s, Second),
            MTableLookup(r, s, Third), MTableLookup(r, s, Fourth)])
  }

  function Reads(keys: seq<StackKey>): nat {
    if keys == [] then 0 else (if keys[0].StackRead? then 1 else 0) + Reads(keys[1..])
  }

  function Writes(keys: seq<StackKey>): nat {
    if keys == [] then 0 else (if keys[0].StackWrite? then 1 else 0) + Writes(keys[1..])
  }

  /** `sp_diff`: the stack pointer moves by this much over the step. */
  function SpDiff(): int {
    1
  }

  /** `mops`: the number of memory-table operations the row performs. */
  function Mops(): int {
    3
  }

  /** `sp_diff` and `mops` agree with the keys the row claims: three
      accesses, and two pops against one push. */
  lemma ResourceDeltas(r: RelRow, s: StepState)
    ensures Mops() == |Accesses(r, s)|
    ensures SpDiff() == Reads(Accesses(r, s)) - Writes(Accesses(r, s))
  {
    var slots := [MTableLookup(r, s, First), MTableLookup(r, s, Second),
                  MTableLookup(r, s, Third), MTableLookup(r, s, Fourth)];
    var k1, k2, k3 := slots[0].value, slots[1].value, slots[2].value;
    assert Filled(slots[3..]) == [] by {
      assert slots[3..][1..] == [];
    }
    assert Filled(slots[2..]) == [k3] by {
      assert slots[2..][1..] == slots[3..];
    }
    assert Filled(slots[1..]) == [k2, k3] by {
      assert slots[1..][1..] == slots[2..];
    }
    assert Filled(slots) == [k1, k2, k3];
    assert Reads([k3]) == 0 && Writes([k3]) == 1 by {
      assert [k3][1..] == [];
    }
    assert [k2, k3][1..] == [k3];
    assert [k1, k2, k3][1..] == [k2, k3];
  }

  /** The comparison operators `assign` handles. */
  predicate Implemented(op: RelOp) {
    op == UnsignedLt || op == UnsignedLe
  }

  /** What an implemented operator computes on unsigned operands. */
  function Expected(op: RelOp, lhs: int, rhs: int): bool
    requires Implemented(op)
  {
    if op == UnsignedLt then lhs < rhs else lhs <= rhs
  }

  /** The equality gadget is complete: with `diff_inv` the inverse-or-zero
      of `diff` and `res_is_eq` set exactly when `diff` is 0, both of its
      identities hold. */
  lemma EqGadgetComplete(p: nat, diff: int)
    requires IsPrime(p) && InField(p, diff)
    ensures var isEq := if diff == 0 then 1 else 0;
            IsZero(p, diff * isEq) && IsZero(p, diff * InvOrZero(p, diff) + isEq - 1)
  {
    if diff != 0 {
      OneMinus(p, diff * InvOrZero(p, diff));
    }
  }

  /** The equality gadget is sound: whatever `diff_inv` holds, its two
      identities force `res_is_eq` to be 1 exactly when `diff` is 0. */
  lemma EqGadgetSound(p: nat, diff: int, diffInv: int, isEq: int)
    requires IsPrime(p) && InField(p, diff) && InField(p, isEq)
    requires IsZero(p, diff * isEq) && IsZero(p, diff * diffInv + isEq - 1)
    ensures isEq == if diff == 0 then 1 else 0
  {
    if diff == 0 {
      ZeroInRange(p, isEq - 1);
    } else {
      CancelNonZero(p, diff, isEq);
      ZeroInRange(p, isEq);
    }
  }

  /** "compare diff" is sound: at a row meeting it, exactly one of the
      three result flags is set, it is the one the operands' order selects,
      and `diff` is their distance. */
  lemma CompareDiffSound(p: nat, r: RelRow)
    requires FieldModulus(p) && CellsInRange(p, r) && AllZero(p, CompareDiff(r))
    ensures r.resIsEq == B2I(r.lhs == r.rhs)
    ensures r.resIsLt == B2I(r.lhs < r.rhs)
    ensures r.resIsGt == B2I(r.lhs > r.rhs)
    ensures r.diff == if r.lhs < r.rhs then r.rhs - r.lhs else r.lhs - r.rhs
  {
    var es := CompareDiff(r);
    assert IsZero(p, es[0]) && IsZero(p, es[1]) && IsZero(p, es[2]) && IsZero(p, es[3]);
    ZeroInRange(p, es[1]);
    EqGadgetSound(p, r.diff, r.diffInv, r.resIsEq);
    if r.resIsEq == 1 {
      assert es[0] == r.lhs - r.rhs;
      ZeroInRange(p, es[0]);
    } else if r.resIsLt == 1 {
      assert es[0] == r.lhs + r.diff - r.rhs;
      ZeroInRange(p, es[0]);
    } else {
      assert es[0] == r.lhs - r.diff - r.rhs;
      ZeroInRange(p, es[0]);
    }
  }

  /** "compare op" picks exactly one of the six operator selectors. */
  lemma CompareOpSound(p: nat, r: RelRow)
    requires FieldModulus(p) && CellsInRange(p, r) && AllZero(p, CompareOp(r))
    ensures r.opIsEq + r.opIsNe + r.opIsLt + r.opIsGt + r.opIsLe + r.opIsGe == 1
  {
    assert IsZero(p, CompareOp(r)[0]);
    ZeroInRange(p, CompareOp(r)[0]);
  }

  /** With the sign selector off, "compare leading bit" forces both leading
      bits and both remainders to 0. */
  lemma LeadingBitUnsigned(p: nat, r: RelRow)
    requires FieldModulus(p) && CellsInRange(p, r) && AllZero(p, CompareLeadingBit(r))
    requires r.opIsSign == 0
    ensures r.lhsLeadingBit == 0 && r.rhsLeadingBit == 0
    ensures r.lhsRemValue == 0 && r.rhsRemValue == 0
  {
    var es := CompareLeadingBit(r);
    assert IsZero(p, es[0]) && IsZero(p, es[1]);
    assert es[0] == r.lhsLeadingBit * 8 + r.lhsRemValue;
    assert es[1] == r.rhsLeadingBit * 8 + r.rhsRemValue;
    ZeroInRange(p, es[0]);
    ZeroInRange(p, es[1]);
  }

  /** A bit selector times a value smaller than p in magnitude is zero in
      the field only when the selector is off or the value is 0. */
  lemma SelectorGuard(p: nat, sel: int, v: int)
    requires p > 0 && Bit(sel) && -v < p && v < p && IsZero(p, sel * v)
    ensures sel == 0 || v == 0
  {
    if sel == 1 {
      assert sel * v == v;
      ZeroInRange(p, v);
    }
  }

  /** "compare op res" with both leading bits 0: the selected operator's
      expression ties `res` to the unsigned result flags. */
  lemma OpResUnsigned(p: nat, r: RelRow)
    requires FieldModulus(p) && CellsInRange(p, r) && AllZero(p, CompareOpRes(r))
    requires r.lhsLeadingBit == 0 && r.rhsLeadingBit == 0
    ensures r.opIsEq == 1 ==> r.res == r.resIsEq
    ensures r.opIsNe == 1 ==> r.res == 1 - r.resIsEq
    ensures r.opIsLt == 1 ==> r.res == r.resIsLt
    ensures r.opIsLe == 1 ==> r.res == r.resIsLt + r.resIsEq
    ensures r.opIsGt == 1 ==> r.res == r.resIsGt
    ensures r.opIsGe == 1 ==> r.res == r.resIsGt + r.resIsEq
  {
    var es := CompareOpRes(r);
    assert IsZero(p, es[0]) && IsZero(p, es[1]) && IsZero(p, es[2]);
    assert IsZero(p, es[3]) && IsZero(p, es[4]) && IsZero(p, es[5]);
    assert es[0] == r.opIsEq * (r.res - r.resIsEq);
    assert es[1] == r.opIsNe * (r.res - 1 + r.resIsEq);
    assert es[2] == r.opIsLt * (r.res - r.resIsLt);
    assert es[3] == r.opIsLe * (r.res - r.resIsLt - r.resIsEq);
    assert es[4] == r.opIsGt * (r.res - r.resIsGt);
    assert es[5] == r.opIsGe * (r.res - r.resIsGt - r.resIsEq);
    SelectorGuard(p, r.opIsEq, r.res - r.resIsEq);
    SelectorGuard(p, r.opIsNe, r.res - 1 + r.resIsEq);
    SelectorGuard(p, r.opIsLt, r.res - r.resIsLt);
    SelectorGuard(p, r.opIsLe, r.res - r.resIsLt - r.resIsEq);
    SelectorGuard(p, r.opIsGt, r.res - r.resIsGt);
    SelectorGuard(p, r.opIsGe, r.res - r.resIsGt - r.resIsEq);
  }

  /** Soundness of the compare identities for unsigned operators: at any
      row whose cells are in range and which meets every identity with the
      sign selector off, exactly one operator is selected and `res` is
      that operator applied to `lhs` and `rhs`. */
  lemma UnsignedSound(p: nat, r: RelRow)
    requires FieldModulus(p) && CellsInRange(p, r) && Satisfied(p, r) && r.opIsSign == 0
    ensures r.opIsEq + r.opIsNe + r.opIsLt + r.opIsGt + r.opIsLe + r.opIsGe == 1
    ensures r.opIsEq == 1 ==> r.res == B2I(r.lhs == r.rhs)
    ensures r.opIsNe == 1 ==> r.res == B2I(r.lhs != r.rhs)
    ensures r.opIsLt == 1 ==> r.res == B2I(r.lhs < r.rhs)
    ensures r.opIsLe == 1 ==> r.res == B2I(r.lhs <= r.rhs)
    ensures r.opIsGt == 1 ==> r.res == B2I(r.lhs > r.rhs)
    ensures r.opIsGe == 1 ==> r.res == B2I(r.lhs >= r.rhs)
  {
    CompareDiffSound(p, r);
    CompareOpSound(p, r);
    LeadingBitUnsigned(p, r);
    OpResUnsigned(p, r);
  }

  /** Completeness of the compare identities for unsigned operators: a row
      whose cells are filled honestly (flags from the operands' order,
      `diff` their distance, `diff_inv` its inverse-or-zero, one operator
      selected with the sign selector off, leading bits and remainders 0,
      one byte width, `res` the selected operator's result) meets every
      identity. */
  lemma UnsignedComplete(p: nat, r: RelRow)
    requires FieldModulus(p) && CellsInRange(p, r)
    requires r.isFourBytes + r.isEightBytes == 1 && r.opIsSign == 0
    requires r.lhsLeadingBit == 0 && r.rhsLeadingBit == 0
    requires r.lhsRemValue == 0 && r.rhsRemValue == 0
    requires r.resIsEq == B2I(r.lhs == r.rhs)
    requires r.resIsLt == B2I(r.lhs < r.rhs)
    requires r.resIsGt == B2I(r.lhs > r.rhs)
    requires r.diff == if r.lhs < r.rhs then r.rhs - r.lhs else r.lhs - r.rhs
    requires r.diffInv == InvOrZero(p, r.diff)
    requires r.opIsEq + r.opIsNe + r.opIsLt + r.opIsGt + r.opIsLe + r.opIsGe == 1
    requires r.opIsEq == 1 ==> r.res == B2I(r.lhs == r.rhs)
    requires r.opIsNe == 1 ==> r.res == B2I(r.lhs != r.rhs)
    requires r.opIsLt == 1 ==> r.res == B2I(r.lhs < r.rhs)
    requires r.opIsLe == 1 ==> r.res == B2I(r.lhs <= r.rhs)
    requires r.opIsGt == 1 ==> r.res == B2I(r.lhs > r.rhs)
    requires r.opIsGe == 1 ==> r.res == B2I(r.lhs >= r.rhs)
    ensures Satisfied(p, r)
  {
    EqGadgetComplete(p, r.diff);
    var d := CompareDiff(r);
    assert d[0] == 0 && d[1] == 0;
    assert IsZero(p, d[2]) && IsZero(p, d[3]);
    assert AllZero(p, d);
    assert CompareOp(r)[0] == 0;
    assert CompareBytes(r)[0] == 0;
    var l := CompareLeadingBit(r);
    assert l[0] == 0 && l[1] == 0;
    var o := CompareOpRes(r);
    assert o[0] == r.opIsEq * (r.res - r.resIsEq);
    assert o[1] == r.opIsNe * (r.res - 1 + r.resIsEq);
    assert o[2] == r.opIsLt * (r.res - r.resIsLt);
    assert o[3] == r.opIsLe * (r.res - r.resIsLt - r.resIsEq);
    assert o[4] == r.opIsGt * (r.res - r.resIsGt);
    assert o[5] == r.opIsGe * (r.res - r.resIsGt - r.resIsEq);
    assert o[0] == 0 && o[1] == 0 && o[2] == 0 && o[3] == 0 && o[4] == 0 && o[5] == 0;
  }

  /** The shape `assign` gives a row for an implemented operator `op` and
      traced result `value`. */
  predicate AssignedShape(p: nat, r: RelRow, op: RelOp, value: bool)
    requires IsPrime(p)
  {
    && Implemented(op)
    && r.isFourBytes == 1 && r.isEightBytes == 0 && r.isSign == 1
    && 0 <= r.lhs < TWO_32 && 0 <= r.rhs < TWO_32
    && r.diff == (if r.lhs < r.rhs then r.rhs - r.lhs else r.lhs - r.rhs)
    && r.diffInv == InvOrZero(p, r.diff)
    && r.resIsEq == B2I(r.lhs == r.rhs)
    && r.resIsGt == B2I(r.lhs > r.rhs)
    && r.resIsLt == B2I(r.lhs < r.rhs)
    && r.res == B2I(value)
    && r.lhsLeadingBit == 0 && r.rhsLeadingBit == 0
    && r.lhsRemValue == 0 && r.rhsRemValue == 0
    && r.opIsEq == 0 && r.opIsNe == 0 && r.opIsGt == 0 && r.opIsGe == 0
    && r.opIsLt == B2I(op == UnsignedLt) && r.opIsLe == B2I(op == UnsignedLe)
    && r.opIsSign == 0
  }

  /** A row of the assigned shape meets every compare identity exactly
      when the traced value is the true comparison of its operands. */
  lemma AssignedRowSatisfied(p: nat, r: RelRow, op: RelOp, value: bool)
    requires FieldModulus(p) && AssignedShape(p, r, op, value)
    ensures CellsInRange(p, r)
    ensures Satisfied(p, r) <==> value == Expected(op, r.lhs, r.rhs)
  {
    if value == Expected(op, r.lhs, r.rhs) {
      UnsignedComplete(p, r);
    } else if Satisfied(p, r) {
      UnsignedSound(p, r);
    }
  }

  /** At a row of the assigned shape the opcode expression is the opcode
      of the unsigned i32 instruction `op`. */
  lemma AssignedOpcode(p: nat, c: OpcodeConstants, r: RelRow, op: RelOp, value: bool)
    requires IsPrime(p) && AssignedShape(p, r, op, value)
    ensures Opcode(c, r) == InstOpcode(c, op)
  {
    assert Vtype(r) == I32_CODE;
    if op == UnsignedLt {
      assert r.opIsLe * (1 - r.opIsSign) * (c.unsignedLeCode * Pow2(c.arg0Shift)) == 0;
      assert r.opIsLt * (1 - r.opIsSign) * (c.unsignedLtCode * Pow2(c.arg0Shift))
          == c.unsignedLtCode * Pow2(c.arg0Shift);
    } else {
      assert r.opIsLt * (1 - r.opIsSign) * (c.unsignedLtCode * Pow2(c.arg0Shift)) == 0;
      assert r.opIsLe * (1 - r.opIsSign) * (c.unsignedLeCode * Pow2(c.arg0Shift))
          == c.unsignedLeCode * Pow2(c.arg0Shift);
    }
  }

  /** `assign`: fills one compare row from the step's `I32Comp` payload,
      cell by cell in the order the source writes them, starting from the
      empty row. The operands are truncated to 32 bits; only the unsigned
      lt and le operators have an assignment. The row has the assigned
      shape, so by AssignedRowSatisfied it meets every identity exactly
      when the traced `value` is the true comparison and by AssignedOpcode
      its opcode expression is the instruction's opcode; its lookup cells
      agree with what the row claims symbolically. */
  method Assign(p: nat, c: OpcodeConstants, s: StepState, entry: StepInfo)
    returns (out: Result<RelRow, RelError>)
    requires FieldModulus(p)
    ensures !entry.I32Comp? ==> out == Err(Unreachable)
    ensures entry.I32Comp? && !Implemented(entry.op) ==> out == Err(Unimplemented(entry.op))
    ensures entry.I32Comp? && Implemented(entry.op) ==> out.Ok?
    ensures out.Ok? ==> entry.I32Comp? && AssignedShape(p, out.value, entry.op, entry.value)
    ensures out.Ok? ==> out.value.lhs == ToU32(entry.left) && out.value.rhs == ToU32(entry.right)
    ensures out.Ok? ==> out.value.lookupStackReadLhs == MTableLookup(out.value, s, First)
    ensures out.Ok? ==> out.value.lookupStackReadRhs == MTableLookup(out.value, s, Second)
    ensures out.Ok? ==> out.value.lookupStackWriteRes == MTableLookup(out.value, s, Third)
    ensures out.Ok? ==> MTableLookup(out.value, s, First)
                        == Some(StackRead(s.eid, 1, s.sp + 1, I32_CODE, ToU32(entry.right)))
    ensures out.Ok? ==> MTableLookup(out.value, s, Second)
                        == Some(StackRead(s.eid, 2, s.sp + 2, I32_CODE, ToU32(entry.left)))
    ensures out.Ok? ==> MTableLookup(out.value, s, Third)
                        == Some(StackWrite(s.eid, 3, s.sp + 2, I32_CODE, B2I(entry.value)))
  {
    if !entry.I32Comp? {
      return Err(Unreachable);
    }
    var lhs := ToU32(entry.left);
    var rhs := ToU32(entry.right);
    var diff := if lhs < rhs then rhs - lhs else lhs - rhs;
    var value := entry.value;

    var r := EmptyRow;
    r := r.(isFourBytes := 1);
    r := r.(isSign := 1);
    r := r.(lhs := lhs);
    r := r.(rhs := rhs);
    r := r.(diff := diff);
    r := r.(diffInv := InvOrZero(p, diff));
    r := r.(resIsEq := B2I(lhs == rhs));
    r := r.(resIsGt := B2I(lhs > rhs));
    r := r.(resIsLt := B2I(lhs < rhs));
    r := r.(res := B2I(value));

    if entry.op == UnsignedLt {
      r := r.(opIsLt := 1);
    } else if entry.op == UnsignedLe {
      r := r.(opIsLe := 1);
    } else {
      // Eq, Ne, SignedGt, UnsignedGt, SignedGe and UnsignedGe reach todo!()
      return Err(Unimplemented(entry.op));
    }

    r := r.(lookupStackReadLhs := Some(StackRead(s.eid, 1, s.sp + 1, I32_CODE, rhs)));
    r := r.(lookupStackReadRhs := Some(StackRead(s.eid, 2, s.sp + 2, I32_CODE, lhs)));
    r := r.(lookupStackWriteRes := Some(StackWrite(s.eid, 3, s.sp + 2, I32_CODE, B2I(value))));

    assert r == RelRow(1, 0, 1, lhs, rhs, diff, InvOrZero(p, diff),
                       B2I(lhs == rhs), B2I(lhs < rhs), B2I(lhs > rhs), B2I(value),
                       0, 0, 0, 0,
                       0, 0, B2I(entry.op == UnsignedLt), 0, B2I(entry.op == UnsignedLe), 0, 0,
                       Some(StackRead(s.eid, 1, s.sp + 1, I32_CODE, rhs)),
                       Some(StackRead(s.eid, 2, s.sp + 2, I32_CODE, lhs)),
                       Some(StackWrite(s.eid, 3, s.sp + 2, I32_CODE, B2I(value))));
    assert AssignedShape(p, r, entry.op, value);
    return Ok(r);
  }

  /** The operands of the source's tests, left pushed first: (1, 0), (1, 1)
      and (0, 1), each under lt_u and le_u. */
  predicate SourceTestCase(op: RelOp, left: i32, right: i32) {
    && Implemented(op)
    && ((left == 1 && right == 0) || (left == 1 && right == 1) || (left == 0 && right == 1))
  }

  /** Each test row, assigned with the comparison the trace records, meets
      every identity; its result is 1 exactly for 1 <= 1, 0 <= 1 and 0 < 1. */
  lemma SourceTests(p: nat, r: RelRow, op: RelOp, left: i32, right: i32)
    requires FieldModulus(p) && SourceTestCase(op, left, right)
    requires r.lhs == ToU32(left) && r.rhs == ToU32(right)
    requires AssignedShape(p, r, op, Expected(op, r.lhs, r.rhs))
    ensures Satisfied(p, r)
    ensures r.res == 1 <==> (op == UnsignedLe && left <= right) || (left == 0 && right == 1)
  {
    AssignedRowSatisfied(p, r, op, Expected(op, r.lhs, r.rhs));
  }
}
