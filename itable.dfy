/** The instruction table: an instruction's location and opcode packed into
    one natural-number key, and the chip that writes one key per row of the
    table's fixed column.

    The location is five u16 fields (module instance, module for imports,
    function, block, instruction), packed 16 bits each into an 80-bit
    address; the key appends the 64-bit opcode and a 64-bit auxiliary word,
    208 bits in all. */
module ITable {
  import opened Specs
  import opened Arith

  /** One instruction of the table. */
  datatype Inst = Inst(moid: u16, mmid: u16, fid: u16, bid: u16, iid: u16,
                       opcode: u64, aux: u64)

  /** An instruction as the tracer records it: the fields the table reads. */
  datatype IEntry = IEntry(moduleInstanceIndex: u16, funcIndex: u16, pc: u16, opcode: u64)

  /** `From<IEntry> for Inst`: the module instance stands for both module
      ids, the block is 0, the pc is the instruction id and aux is 0. */
  function FromIEntry(e: IEntry): Inst {
    Inst(e.moduleInstanceIndex, e.moduleInstanceIndex, e.funcIndex, 0, e.pc, e.opcode, 0)
  }

  /** Appending a 16-bit digit. */
  function Push16(acc: nat, x: u16): nat {
    acc * TWO_16 + x
  }

  /** The 80-bit address: the five fields as base-2^16 digits, moid first. */
  function Addr(i: Inst): nat {
    Push16(Push16(Push16(Push16(i.moid, i.mmid), i.fid), i.bid), i.iid)
  }

  /** The 208-bit key: the address followed by the opcode and aux words. */
  function Key(i: Inst): nat {
    (Addr(i) * TWO_64 + i.opcode) * TWO_64 + i.aux
  }

  /** Every address fits in 80 bits. */
  lemma AddrBound(i: Inst)
    ensures Addr(i) < TWO_80
  {
    var a1 := Push16(i.moid, i.mmid);
    PackBound(i.moid, i.mmid, TWO_16, TWO_16);
    var a2 := Push16(a1, i.fid);
    PackBound(a1, i.fid, TWO_16, TWO_32);
    var a3 := Push16(a2, i.bid);
    PackBound(a2, i.bid, TWO_16, TWO_32 * TWO_16);
    PackBound(a3, i.iid, TWO_16, TWO_64);
  }

  /** Every key fits in 208 bits. */
  lemma KeyBound(i: Inst)
    ensures Key(i) < TWO_208
  {
    AddrBound(i);
    PackBound(Addr(i), i.opcode, TWO_64, TWO_80);
    PackBound(Addr(i) * TWO_64 + i.opcode, i.aux, TWO_64, TWO_144);
  }

  /** Splits a key back into the fields: aux is the low 64 bits, the opcode
      the next 64, and each address field a 16-bit digit of the rest. */
  function Decode(k: nat): Inst {
    var aux, hi := k % TWO_64, k / TWO_64;
    var opcode, a0 := hi % TWO_64, hi / TWO_64;
    var iid, a1 := a0 % TWO_16, a0 / TWO_16;
    var bid, a2 := a1 % TWO_16, a1 / TWO_16;
    var fid, a3 := a2 % TWO_16, a2 / TWO_16;
    var mmid, a4 := a3 % TWO_16, a3 / TWO_16;
    Inst(a4 % TWO_16, mmid, fid, bid, iid, opcode, aux)
  }

  /** Peeling one 16-bit digit off an address. */
  lemma Pop16(acc: nat, x: u16)
    ensures Push16(acc, x) % TWO_16 == x && Push16(acc, x) / TWO_16 == acc
  {
    DivModPack(acc, x, TWO_16);
  }

  /** The address's 16-bit digits, lowest first, are iid, bid, fid, mmid
      and moid. */
  lemma AddrDigits(i: Inst)
    ensures
      var a0 := Addr(i);
      var a1 := a0 / TWO_16;
      var a2 := a1 / TWO_16;
      var a3 := a2 / TWO_16;
      && a0 % TWO_16 == i.iid && a1 % TWO_16 == i.bid && a2 % TWO_16 == i.fid
      && a3 % TWO_16 == i.mmid && (a3 / TWO_16) % TWO_16 == i.moid
  {
    var a1 := Push16(i.moid, i.mmid);
    var a2 := Push16(a1, i.fid);
    var a3 := Push16(a2, i.bid);
    Pop16(a3, i.iid);
    Pop16(a2, i.bid);
    Pop16(a1, i.fid);
    Pop16(i.moid, i.mmid);
    assert i.moid % TWO_16 == i.moid;
  }

  /** Decoding recovers every field of the instruction. */
  lemma DecodeKey(i: Inst)
    ensures Decode(Key(i)) == i
  {
    var a := Addr(i);
    DivModPack(a * TWO_64 + i.opcode, i.aux, TWO_64);
    DivModPack(a, i.opcode, TWO_64);
    AddrDigits(i);
  }

  /** Writing n as q * d + n % d. */
  lemma Split(n: nat, d: nat)
    requires d > 0
    ensures n == (n / d) * d + n % d && 0 <= n % d < d
  {
  }

  /** Every number below 2^208 is the key of its decoding. */
  lemma KeyDecode(k: nat)
    requires k < TWO_208
    ensures Key(Decode(k)) == k
  {
    var hi := k / TWO_64;
    Split(k, TWO_64);
    DivBound(k, TWO_64, TWO_144);
    var a0 := hi / TWO_64;
    Split(hi, TWO_64);
    DivBound(hi, TWO_64, TWO_80);
    var a1 := a0 / TWO_16;
    Split(a0, TWO_16);
    DivBound(a0, TWO_16, TWO_64);
    var a2 := a1 / TWO_16;
    Split(a1, TWO_16);
    DivBound(a1, TWO_16, TWO_32 * TWO_16);
    var a3 := a2 / TWO_16;
    Split(a2, TWO_16);
    DivBound(a2, TWO_16, TWO_32);
    var a4 := a3 / TWO_16;
    Split(a3, TWO_16);
    DivBound(a3, TWO_16, TWO_16);
    assert a4 % TWO_16 == a4;
  }

  /** Different instructions have different keys. */
  lemma KeyInjective(i: Inst, j: Inst)
    ensures Key(i) == Key(j) ==> i == j
  {
    DecodeKey(i);
    DecodeKey(j);
  }

  /** Traced instructions have the same key exactly when they agree on
      module instance, function, pc and opcode. */
  lemma FromIEntryKey(e1: IEntry, e2: IEntry)
    ensures Key(FromIEntry(e1)) == Key(FromIEntry(e2)) <==> e1 == e2
  {
    KeyInjective(FromIEntry(e1), FromIEntry(e2));
  }

  /** `Inst::encode_addr`: shifts a big number left by 16 bits and adds
      each field in turn, starting from 0. */
  method EncodeAddr(i: Inst) returns (bn: nat)
    ensures bn == Addr(i) && bn < TWO_80
  {
    bn := 0;
    bn := bn * TWO_16;
    bn := bn + i.moid;
    bn := bn * TWO_16;
    bn := bn + i.mmid;
    bn := bn * TWO_16;
    bn := bn + i.fid;
    bn := bn * TWO_16;
    bn := bn + i.bid;
    bn := bn * TWO_16;
    bn := bn + i.iid;
    AddrBound(i);
  }

  /** `Inst::encode`: the address shifted left by 64 bits plus the opcode,
      shifted again plus aux. The result is the instruction's key, below
      2^208, and the opcode, aux and address come back out of it. */
  method Encode(i: Inst) returns (bn: nat)
    ensures bn == Key(i) && bn < TWO_208
    ensures bn % TWO_64 == i.aux && (bn / TWO_64) % TWO_64 == i.opcode
    ensures (bn / TWO_64) / TWO_64 == Addr(i)
  {
    bn := EncodeAddr(i);
    bn := bn * TWO_64;
    bn := bn + i.opcode;
    bn := bn * TWO_64;
    bn := bn + i.aux;
    KeyBound(i);
    DivModPack(Addr(i) * TWO_64 + i.opcode, i.aux, TWO_64);
    DivModPack(Addr(i), i.opcode, TWO_64);
  }

  /** The rows a sequence of `add_inst` calls from the first row fills:
      row k holds the key of the k-th instruction. */
  function Column(insts: seq<Inst>): map<nat, nat> {
    if insts == [] then map[]
    else Column(insts[..|insts| - 1])[|insts| - 1 := Key(insts[|insts| - 1])]
  }

  /** The table built row by row has exactly one row per instruction, and
      each row holds the key of that row's instruction; so two rows hold
      the same key only when their instructions are equal. */
  lemma {:induction false} ColumnRows(insts: seq<Inst>)
    ensures forall row: nat :: row in Column(insts) <==> row < |insts|
    ensures forall row :: 0 <= row < |insts| ==> Column(insts)[row] == Key(insts[row])
  {
    if insts != [] {
      var init := insts[..|insts| - 1];
      ColumnRows(init);
      var m := Column(init);
      assert Column(insts) == m[|init| := Key(insts[|init|])];
      forall row: nat
        ensures row in Column(insts) <==> row < |insts|
        ensures row < |insts| ==> Column(insts)[row] == Key(insts[row])
      {
        assert row in m <==> row < |init|;
        if row < |init| {
          assert init[row] == insts[row];
        }
      }
    }
  }

  /** The region context of the instruction-table chip: the next row to
      assign and the fixed column's assigned cells, by row. `added` is the
      instructions added so far, in order. */
  class Context {
    var offset: nat
    var column: map<nat, nat>
    ghost var added: seq<Inst>

    /** The column holds one key per added instruction, in order, and the
        next row is the first free one. */
    ghost predicate Valid()
      reads this
    {
      offset == |added| && column == Column(added)
    }

    /** A context at the start of a region: row 0, no cell assigned. */
    constructor ()
      ensures offset == 0 && column == map[] && added == [] && Valid()
    {
      offset := 0;
      column := map[];
      added := [];
    }

    /** `InstTableChip::add_inst`: writes the instruction's key at the
        current row and moves to the next row; earlier rows keep their
        keys. */
    method AddInst(inst: Inst)
      requires Valid()
      modifies this
      ensures offset == old(offset) + 1
      ensures column == old(column)[old(offset) := Key(inst)]
      ensures added == old(added) + [inst]
      ensures Valid()
    {
      var key := Encode(inst);
      column := column[offset := key];
      offset := offset + 1;
      added := added + [inst];
      assert added[..|added| - 1] == old(added);
    }
  }
}
