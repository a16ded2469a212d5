/** The select opcode of the event table: the cells of one row, the two
    guarded identities that force `res = if cond != 0 then val1 else val2`,
    the witness assignment for one `Select` step, the stack accesses the
    row claims and its resource counts.

    As for the compare opcode, a row is a record of integers standing for
    field elements and an identity holds when its value is 0 modulo p. */
module OpSelect {
  import opened Specs
  import opened Field
  import opened Arith

  /** The kind of location a memory access touches. Select only touches
      the stack, and the other kinds are not part of this model. */
  datatype LocationType = Stack

  /** A memory-table lookup cell as `assign` fills it. A read carries the
      validity interval [startEid, endEid) of the value it reads; a write
      opens its interval at its own event id. */
  datatype MemoryAccess =
    | MemoryRead(startEid: int, eid: int, endEid: int, offset: int,
                 ltype: LocationType, isI32: bool, value: int)
    | MemoryWrite(eid: int, endEid: int, offset: int,
                  ltype: LocationType, isI32: bool, value: int)

  /** What `configure` binds a lookup cell to: the row's event id, the
      location type, an offset expression, an is_i32 expression and a value
      expression; every lookup is enabled (constant 1). */
  datatype LookupClaim =
    | ReadClaim(eid: int, ltype: LocationType, offset: int, isI32: int, value: int)
    | WriteClaim(eid: int, ltype: LocationType, offset: int, isI32: int, value: int)

  /** The cells of one select row; None is a lookup cell left unassigned. */
  datatype SelectRow = SelectRow(
    cond: int, condInv: int, val1: int, val2: int, res: int, isI32: int,
    lookupStackReadCond: Option<MemoryAccess>,
    lookupStackReadVal2: Option<MemoryAccess>,
    lookupStackReadVal1: Option<MemoryAccess>,
    lookupStackWrite: Option<MemoryAccess>)

  /** The validity interval the tracer resolved for one memory access of a
      step. */
  datatype MemoryRwEntry = MemoryRwEntry(startEid: int, endEid: int)

  /** A trace entry together with its resolved memory accesses, in the order
      the step performs them. */
  datatype EntryWithMemoryInfo =
    EntryWithMemoryInfo(stepInfo: StepInfo, memoryRwEntries: seq<MemoryRwEntry>)

  /** Failures of `assign`: a step that is not a select reaches
      `unreachable!()`; a step with fewer than four memory entries panics
      indexing the first one missing. */
  datatype SelectError = Unreachable | MissingMemoryEntry(index: nat)

  /** A row before `assign` writes anything: every cell 0. */
  const EmptyRow := SelectRow(0, 0, 0, 0, 0, 0, None, None, None, None)

  /** The range facts of the cell kinds: u64 cells below 2^64, the bit cell
      0 or 1, the unlimited cell any field element. */
  predicate CellsInRange(p: nat, r: SelectRow) {
    && 0 <= r.cond < TWO_64 && 0 <= r.val1 < TWO_64
    && 0 <= r.val2 < TWO_64 && 0 <= r.res < TWO_64
    && InField(p, r.condInv) && (r.isI32 == 0 || r.isI32 == 1)
  }

  // The identities registered by `configure`.

  /** "select: cond is zero" */
  function CondIsZero(r: SelectRow): seq<int> {
    [ (1 - r.cond * r.condInv) * (r.res - r.val2) ]
  }

  /** "select: cond is not zero" */
  function CondIsNotZero(r: SelectRow): seq<int> {
    [ r.cond * (r.res - r.val1) ]
  }

  /** Both identities of the select config hold at row r. */
  predicate Satisfied(p: nat, r: SelectRow)
    requires p > 0
  {
    AllZero(p, CondIsZero(r)) && AllZero(p, CondIsNotZero(r))
  }

  /** WebAssembly `select`: the first value when the condition is nonzero,
      the second otherwise. */
  function Selected(cond: int, val1: int, val2: int): int {
    if cond != 0 then val1 else val2
  }

  /** A nonzero u64 guard times a u64 difference is zero in the field
      only when the difference is 0. */
  lemma GuardNonZero(p: nat, c: int, d: int)
    requires FieldModulus(p) && 0 < c < TWO_64 && -d < TWO_64 && d < TWO_64
    requires (c * d) % p == 0
    ensures d == 0
  {
    assert c % p == c;
    CancelNonZero(p, c, d);
    ZeroInRange(p, d);
  }

  /** A u64 difference that is zero in the field is 0. */
  lemma DiffZero(p: nat, d: int)
    requires FieldModulus(p) && -d < TWO_64 && d < TWO_64 && d % p == 0
    ensures d == 0
  {
    ZeroInRange(p, d);
  }

  /** Soundness: whatever `cond_inv` holds, a row in range that meets both
      identities has `res` equal to the selected value. */
  lemma SelectSound(p: nat, r: SelectRow)
    requires FieldModulus(p) && CellsInRange(p, r) && Satisfied(p, r)
    ensures r.res == Selected(r.cond, r.val1, r.val2)
  {
    var d1, d2 := r.res - r.val1, r.res - r.val2;
    if r.cond != 0 {
      assert IsZero(p, CondIsNotZero(r)[0]);
      GuardNonZero(p, r.cond, d1);
    } else {
      assert IsZero(p, CondIsZero(r)[0]);
      assert CondIsZero(r)[0] == d2;
      DiffZero(p, d2);
    }
  }

  /** With `cond_inv` the inverse-or-zero of a nonzero u64 `cond`, the
      guard 1 - cond * cond_inv is zero in the field. */
  lemma InverseGuard(p: nat, cond: int)
    requires FieldModulus(p) && 0 < cond < TWO_64
    ensures (1 - cond * InvOrZero(p, cond)) % p == 0
  {
    assert cond % p == cond;
    OneMinusIsZero(p, cond * InvOrZero(p, cond));
  }

  /** When `res` is `val1` the "cond is not zero" identity holds. */
  lemma ResIsVal1(p: nat, r: SelectRow)
    requires p > 0 && r.res == r.val1
    ensures AllZero(p, CondIsNotZero(r))
  {
    var d1 := r.res - r.val1;
    assert r.cond * d1 == 0;
    SingleZero(p, CondIsNotZero(r));
  }

  /** Completeness: with `cond_inv` the inverse-or-zero of the u64 `cond`
      and `res` the selected value, both identities hold. */
  lemma SelectComplete(p: nat, r: SelectRow)
    requires FieldModulus(p) && 0 <= r.cond < TWO_64
    requires r.condInv == InvOrZero(p, r.cond)
    requires r.res == Selected(r.cond, r.val1, r.val2)
    ensures Satisfied(p, r)
  {
    var g, d2 := 1 - r.cond * r.condInv, r.res - r.val2;
    if r.cond != 0 {
      InverseGuard(p, r.cond);
      ZeroTimes(p, g, d2);
      SingleZero(p, CondIsZero(r));
      ResIsVal1(p, r);
    } else {
      assert g * d2 == 0;
      SingleZero(p, CondIsZero(r));
      SingleZero(p, CondIsNotZero(r));
    }
  }

  /** The lookups `configure` binds, in order: `cond` read at sp + 1 with
      is_i32 fixed to 1; `val2` read at sp + 2 and `val1` at sp + 3 with the
      is_i32 cell; the result written at sp + 3 with the is_i32 cell. All
      four are stack accesses of the row's own event; the three operands
      are read from consecutive slots above sp, and the result overwrites
      the deepest of them with the operands' value type. */
  function Layout(s: StepState, r: SelectRow): (cs: seq<LookupClaim>)
    ensures |cs| == 4 && cs[3].WriteClaim?
    ensures forall k :: 0 <= k < 3 ==> cs[k].ReadClaim? && cs[k].offset == s.sp + 1 + k
    ensures forall k :: 0 <= k < 4 ==> cs[k].eid == s.eid && cs[k].ltype == Stack
    ensures cs[3].offset == cs[2].offset && cs[3].isI32 == cs[2].isI32 == cs[1].isI32
    ensures cs[0].value == r.cond && cs[1].value == r.val2 && cs[2].value == r.val1
    ensures cs[3].value == r.res
  {
    [ ReadClaim(s.eid, Stack, s.sp + 1, 1, r.cond),
      ReadClaim(s.eid, Stack, s.sp + 2, r.isI32, r.val2),
      ReadClaim(s.eid, Stack, s.sp + 3, r.isI32, r.val1),
      WriteClaim(s.eid, Stack, s.sp + 3, r.isI32, r.res) ]
  }

  /** An assigned lookup cell meets what `configure` bound it to. */
  predicate Meets(a: Option<MemoryAccess>, cl: LookupClaim) {
    && a.Some?
    && (a.value.MemoryRead? <==> cl.ReadClaim?)
    && a.value.eid == cl.eid && a.value.ltype == cl.ltype && a.value.offset == cl.offset
    && B2I(a.value.isI32) == cl.isI32 && a.value.value == cl.value
  }

  /** `sp_diff`: three values popped, one pushed. */
  function SpDiff(): int { 2 }

  /** `mops`: the memory-table entries the step opens. */
  function Mops(): int { 1 }

  /** `memory_writing_ops`. */
  function MemoryWritingOps(): int { 1 }

  function Reads(cs: seq<LookupClaim>): nat {
    if cs == [] then 0 else (if cs[0].ReadClaim? then 1 else 0) + Reads(cs[1..])
  }

  function Writes(cs: seq<LookupClaim>): nat {
    if cs == [] then 0 else (if cs[0].WriteClaim? then 1 else 0) + Writes(cs[1..])
  }

  /** The constant resource counts agree with the layout: the stack pointer
      moves by reads minus writes, and `mops` and `memory_writing_ops` both
      count the one write. */
  lemma ResourceDeltas(s: StepState, r: SelectRow)
    ensures SpDiff() == Reads(Layout(s, r)) - Writes(Layout(s, r))
    ensures Mops() == Writes(Layout(s, r)) && MemoryWritingOps() == Writes(Layout(s, r))
  {
    var l := Layout(s, r);
    assert Reads(l[3..]) == 0 && Writes(l[3..]) == 1 by {
      assert l[3..][1..] == [];
    }
    assert l[2..][1..] == l[3..];
    assert l[1..][1..] == l[2..];
    assert Reads(l[2..]) == 1 && Writes(l[2..]) == 1;
    assert Reads(l[1..]) == 2 && Writes(l[1..]) == 1;
  }

  /** The opcode expression: the select class shifted to the class
      position. It reads no cell; the class is recovered from it by
      shifting back, and the bits below the class position are clear. */
  function Opcode(c: OpcodeConstants): (v: nat)
    ensures v / Pow2(c.classShift) == c.selectClass
    ensures v % Pow2(c.classShift) == 0
  {
    DivModPack(c.selectClass, 0, Pow2(c.classShift));
    c.selectClass * Pow2(c.classShift)
  }

  /** The cells `assign` gives a row for a `Select` step and the event id
      and stack pointer of the step. */
  predicate AssignedCells(p: nat, r: SelectRow, si: StepInfo)
    requires IsPrime(p)
  {
    && si.Select?
    && r.val1 == si.val1 && r.val2 == si.val2 && r.cond == si.cond
    && r.condInv == InvOrZero(p, si.cond) && r.res == si.result
    && r.isI32 == B2I(si.vtype == I32)
  }

  /** `assign`: fills one select row from the step's `Select` payload and
      the step's resolved memory entries, in the order the source writes
      the cells, starting from the empty row. Read i takes its interval
      from memory entry i; the write opens at the current event id and
      closes at memory entry 3's end, with is_i32 written as true. The
      three reads meet the layout `configure` binds; the write meets it
      exactly when the value type is i32, since `configure` binds the
      write's is_i32 to the is_i32 cell. */
  method Assign(p: nat, s: StepState, entry: EntryWithMemoryInfo)
    returns (out: Result<SelectRow, SelectError>)
    requires FieldModulus(p)
    ensures !entry.stepInfo.Select? ==> out == Err(Unreachable)
    ensures entry.stepInfo.Select? && |entry.memoryRwEntries| < 4
            ==> out == Err(MissingMemoryEntry(|entry.memoryRwEntries|))
    ensures entry.stepInfo.Select? && |entry.memoryRwEntries| >= 4 ==> out.Ok?
    ensures out.Ok? ==> AssignedCells(p, out.value, entry.stepInfo)
    ensures out.Ok? ==>
      var si, m := entry.stepInfo, entry.memoryRwEntries;
      && |m| >= 4
      && out.value.lookupStackReadCond
         == Some(MemoryRead(m[0].startEid, s.eid, m[0].endEid, s.sp + 1, Stack, true, si.cond))
      && out.value.lookupStackReadVal2
         == Some(MemoryRead(m[1].startEid, s.eid, m[1].endEid, s.sp + 2, Stack,
                            si.vtype == I32, si.val2))
      && out.value.lookupStackReadVal1
         == Some(MemoryRead(m[2].startEid, s.eid, m[2].endEid, s.sp + 3, Stack,
                            si.vtype == I32, si.val1))
      && out.value.lookupStackWrite
         == Some(MemoryWrite(s.eid, m[3].endEid, s.sp + 3, Stack, true, si.result))
    ensures out.Ok? ==>
      && Meets(out.value.lookupStackReadCond, Layout(s, out.value)[0])
      && Meets(out.value.lookupStackReadVal2, Layout(s, out.value)[1])
      && Meets(out.value.lookupStackReadVal1, Layout(s, out.value)[2])
      && (Meets(out.value.lookupStackWrite, Layout(s, out.value)[3])
          <==> entry.stepInfo.vtype == I32)
  {
    if !entry.stepInfo.Select? {
      return Err(Unreachable);
    }
    var si := entry.stepInfo;
    var m := entry.memoryRwEntries;

    var r := EmptyRow;
    r := r.(val1 := si.val1);
    r := r.(val2 := si.val2);
    r := r.(cond := si.cond);
    r := r.(condInv := InvOrZero(p, si.cond));
    r := r.(res := si.result);
    r := r.(isI32 := B2I(si.vtype == I32));

    if |m| < 1 {
      return Err(MissingMemoryEntry(0));
    }
    r := r.(lookupStackReadCond :=
      Some(MemoryRead(m[0].startEid, s.eid, m[0].endEid, s.sp + 1, Stack, true, si.cond)));
    if |m| < 2 {
      return Err(MissingMemoryEntry(1));
    }
    r := r.(lookupStackReadVal2 :=
      Some(MemoryRead(m[1].startEid, s.eid, m[1].endEid, s.sp + 2, Stack, si.vtype == I32, si.val2)));
    if |m| < 3 {
      return Err(MissingMemoryEntry(2));
    }
    r := r.(lookupStackReadVal1 :=
      Some(MemoryRead(m[2].startEid, s.eid, m[2].endEid, s.sp + 3, Stack, si.vtype == I32, si.val1)));
    if |m| < 4 {
      return Err(MissingMemoryEntry(3));
    }
    r := r.(lookupStackWrite :=
      Some(MemoryWrite(s.eid, m[3].endEid, s.sp + 3, Stack, true, si.result)));
    return Ok(r);
  }

  /** A row with the assigned cells is in range, and it meets both
      identities exactly when the traced result is what `select` computes. */
  lemma AssignedRowSatisfied(p: nat, r: SelectRow, si: StepInfo)
    requires FieldModulus(p) && AssignedCells(p, r, si)
    ensures CellsInRange(p, r)
    ensures Satisfied(p, r) <==> si.result == Selected(si.cond, si.val1, si.val2)
  {
    if si.result == Selected(si.cond, si.val1, si.val2) {
      SelectComplete(p, r);
    } else if Satisfied(p, r) {
      SelectSound(p, r);
    }
  }

  /** A select of 7 and 42 on condition 0 over i32 values: a row assigned
      from any traced result meets the identities only when the result is
      42, and its is_i32 cell is 1. */
  lemma SelectZeroCondition(p: nat, r: SelectRow, result: u64)
    requires FieldModulus(p) && AssignedCells(p, r, Select(7, 42, 0, result, I32))
    ensures Satisfied(p, r) <==> r.res == 42
    ensures r.isI32 == 1
  {
    AssignedRowSatisfied(p, r, Select(7, 42, 0, result, I32));
  }
}
