/** The thirteen instruction handlers of the engine and the condition-flag update
    they share. Each handler sees the machine with PC already pointing past the
    instruction. Handlers that read memory go through the bus, so they also take
    and return the unread input. */
module Instructions {
  import opened Words
  import opened Machine
  import opened Bus

  // ---------------------------------------------------------------------------
  // Instruction fields

  /** Bits 11-9: the destination register, or the source register of a store. */
  function Dr(instr: Word): (r: nat)
    ensures r < 8
  {
    Field(instr, 9, 3)
  }

  /** Bits 8-6: the first source register, or the base register. */
  function Sr1(instr: Word): (r: nat)
    ensures r < 8
  {
    Field(instr, 6, 3)
  }

  /** Bits 2-0: the second source register of ADD and AND. */
  function Sr2(instr: Word): (r: nat)
    ensures r < 8
  {
    Field(instr, 0, 3)
  }

  /** Bit 5 of ADD and AND: the second operand is an immediate. */
  predicate Immediate(instr: Word) {
    Field(instr, 5, 1) > 0
  }

  /** The two's-complement value of the low n bits of instr. */
  function SignedField(instr: Word, n: nat): int
    requires 1 <= n <= 15
  {
    FieldValue(Field(instr, 0, n), n)
  }

  /** `sign_extend(instr & (2^n - 1), n)`: the low n bits of instr as a 16-bit offset. */
  function Offset(instr: Word, n: nat): (r: Word)
    requires 1 <= n <= 15
    ensures Signed(r) == SignedField(instr, n)
    ensures r % Pow2(n) == Field(instr, 0, n)
  {
    Pow2Monotone(n, 15);
    Pow2Sixteen();
    SignExtendValue(Field(instr, 0, n), n);
    SignExtend(Field(instr, 0, n), n)
  }

  /** base plus a sign-extended n-bit offset, with u16 wrap-around, is base plus the
      offset's signed value modulo 2^16. */
  lemma OffsetAddress(base: Word, instr: Word, n: nat)
    requires 1 <= n <= 15
    ensures WrappingAdd(base, Offset(instr, n)) == Address(base, SignedField(instr, n))
  {
    AddSigned(base, Offset(instr, n));
  }

  // ---------------------------------------------------------------------------
  // Condition flags

  /** The condition code a value earns as a two's-complement number. */
  function ConditionOf(v: Word): Word {
    if Signed(v) < 0 then FlagNegative else if Signed(v) == 0 then FlagZero else FlagPositive
  }

  /** The values COND can hold: 0 before the first flag update, then one of the flags. */
  predicate ValidCondition(c: Word) {
    c == 0 || c == FlagPositive || c == FlagZero || c == FlagNegative
  }

  /** Bit 15, `v >> 15`, is set exactly for the upper half of the words. */
  lemma SignBit(v: Word)
    ensures Field(v, 15, 1) == if v < 0x8000 then 0 else 1
  {
    Pow2Sixteen();
    var q := if v < 0x8000 then 0 else 1;
    DivModUnique(v, 0x8000, q, v - 0x8000 * q);
    DivModUnique(q, 2, 0, q);
  }

  /** out differs from vm at most in registers a and b. */
  predicate RegistersOnly(vm: Vm, out: Vm, a: nat, b: nat) {
    out.memory == vm.memory && out.running == vm.running &&
    forall i :: 0 <= i < RegisterCount && i != a && i != b ==> out.reg[i] == vm.reg[i]
  }

  /** `update_flags`: COND becomes Zero for 0, Negative when bit 15 is set, and
      Positive otherwise, which is the sign of the value read as two's complement. */
  function UpdateFlags(vm: Vm, r: nat): (out: Vm)
    requires r < RegisterCount
    ensures out.reg[COND] == FlagZero <==> vm.reg[r] == 0
    ensures out.reg[COND] == FlagNegative <==> vm.reg[r] >= 0x8000
    ensures out.reg[COND] == FlagPositive <==> 0 < vm.reg[r] < 0x8000
    ensures out.reg[COND] == ConditionOf(vm.reg[r])
    ensures RegistersOnly(vm, out, COND, COND)
  {
    var v := vm.reg[r];
    SignBit(v);
    SetReg(vm, COND, if v == 0 then FlagZero else if Field(v, 15, 1) > 0 then FlagNegative else FlagPositive)
  }

  // ---------------------------------------------------------------------------
  // Operate instructions

  /** The second operand of ADD and AND: the sign-extended imm5 when bit 5 is set,
      and the register in bits 2-0 otherwise. */
  function Operand2(vm: Vm, instr: Word): (r: Word)
    ensures Immediate(instr) ==> Signed(r) == SignedField(instr, 5)
    ensures !Immediate(instr) ==> r == vm.reg[Sr2(instr)]
  {
    if Immediate(instr) then Offset(instr, 5) else vm.reg[Sr2(instr)]
  }

  /** ADD: DR := SR1 + operand 2, modulo 2^16, where an immediate counts with its
      signed value; then the flags follow DR. */
  function Add(vm: Vm, instr: Word): (out: Vm)
    ensures out.reg[Dr(instr)] ==
              Address(vm.reg[Sr1(instr)], if Immediate(instr) then SignedField(instr, 5) else vm.reg[Sr2(instr)])
    ensures out.reg[COND] == ConditionOf(out.reg[Dr(instr)])
    ensures RegistersOnly(vm, out, Dr(instr), COND)
  {
    var dr := Dr(instr);
    AddSigned(vm.reg[Sr1(instr)], Operand2(vm, instr));
    UpdateFlags(SetReg(vm, dr, WrappingAdd(vm.reg[Sr1(instr)], Operand2(vm, instr))), dr)
  }

  /** AND: bit i of DR is set exactly when bit i is set in both SR1 and operand 2. */
  function And(vm: Vm, instr: Word): (out: Vm)
    ensures forall i :: 0 <= i < 16 ==>
              Bit(out.reg[Dr(instr)], i) ==
              if Bit(vm.reg[Sr1(instr)], i) == 1 && Bit(Operand2(vm, instr), i) == 1 then 1 else 0
    ensures out.reg[COND] == ConditionOf(out.reg[Dr(instr)])
    ensures RegistersOnly(vm, out, Dr(instr), COND)
  {
    var dr := Dr(instr);
    var v := BitAnd(vm.reg[Sr1(instr)], Operand2(vm, instr));
    forall i | 0 <= i < 16
      ensures Bit(v, i) == if Bit(vm.reg[Sr1(instr)], i) == 1 && Bit(Operand2(vm, instr), i) == 1 then 1 else 0
    {
      AndBitwise(vm.reg[Sr1(instr)], Operand2(vm, instr), 16, i);
    }
    UpdateFlags(SetReg(vm, dr, v), dr)
  }

  /** NOT: DR := the complement of SR, which is 0xFFFF - SR. */
  function Not(vm: Vm, instr: Word): (out: Vm)
    ensures out.reg[Dr(instr)] == 0xFFFF - vm.reg[Sr1(instr)]
    ensures out.reg[COND] == ConditionOf(out.reg[Dr(instr)])
    ensures RegistersOnly(vm, out, Dr(instr), COND)
  {
    var dr := Dr(instr);
    Pow2Sixteen();
    NotIsSubtraction(vm.reg[Sr1(instr)], 16);
    UpdateFlags(SetReg(vm, dr, BitNot(vm.reg[Sr1(instr)])), dr)
  }

  /** AND with the immediate 0 clears DR and sets the Zero flag, whatever SR1 holds. */
  lemma AndClears(vm: Vm, instr: Word)
    requires Immediate(instr) && Field(instr, 0, 5) == 0
    ensures And(vm, instr).reg[Dr(instr)] == 0
    ensures And(vm, instr).reg[COND] == FlagZero
  {
    Pow2Sixteen();
    SignExtendValue(0, 5);
    assert Operand2(vm, instr) == 0;
    AndZero(vm.reg[Sr1(instr)], 16);
  }

  /** Complementing a register twice gives it back. */
  lemma NotNot(vm: Vm, instr: Word)
    requires Dr(instr) == Sr1(instr)
    ensures Not(Not(vm, instr), instr).reg[Dr(instr)] == vm.reg[Dr(instr)]
  {
  }

  // ---------------------------------------------------------------------------
  // Control instructions

  /** The reference reading of `nzp & COND > 0`: some condition bit is both requested
      by the instruction and set in COND. */
  predicate Requested(nzp: nat, cond: Word) {
    exists i :: 0 <= i < 3 && Bit(nzp, i) == 1 && Bit(cond, i) == 1
  }

  /** The source's test `nzp & COND > 0` is the reference reading. */
  lemma BranchTest(nzp: nat, cond: Word)
    requires nzp < 8
    ensures BitAnd(nzp, cond) > 0 <==> Requested(nzp, cond)
  {
    AndNonzero(nzp, cond, 16);
    assert BitAnd(nzp, cond) == AndBits(nzp, cond, 16);
    if Requested(nzp, cond) {
      var i :| 0 <= i < 3 && Bit(nzp, i) == 1 && Bit(cond, i) == 1;
      assert exists j :: 0 <= j < 16 && Bit(nzp, j) == 1 && Bit(cond, j) == 1;
    }
    if BitAnd(nzp, cond) > 0 {
      var i :| 0 <= i < 16 && Bit(nzp, i) == 1 && Bit(cond, i) == 1;
      if i >= 3 {
        BitsAbove(nzp, 3, i);
      }
      assert Requested(nzp, cond);
    }
  }

  /** BR: when the requested condition bits meet COND, PC moves by the signed 9-bit
      offset; otherwise PC keeps its incremented value. */
  function Branch(vm: Vm, instr: Word): (out: Vm)
    ensures out.reg[PC] ==
              if Requested(Dr(instr), vm.reg[COND])
              then Address(vm.reg[PC], SignedField(instr, 9))
              else vm.reg[PC]
    ensures RegistersOnly(vm, out, PC, PC)
  {
    var nzp := Dr(instr);
    BranchTest(nzp, vm.reg[COND]);
    OffsetAddress(vm.reg[PC], instr, 9);
    if BitAnd(nzp, vm.reg[COND]) > 0 then SetReg(vm, PC, WrappingAdd(vm.reg[PC], Offset(instr, 9)))
    else vm
  }

  /** For the values COND can hold, a branch is taken exactly when it asks for the
      flag that is set: bit 2 for Negative, bit 1 for Zero, bit 0 for Positive; and
      never while COND is still 0. */
  lemma RequestedFlag(nzp: nat, cond: Word)
    requires ValidCondition(cond)
    ensures cond == 0 ==> !Requested(nzp, cond)
    ensures cond == FlagNegative ==> (Requested(nzp, cond) <==> Bit(nzp, 2) == 1)
    ensures cond == FlagZero ==> (Requested(nzp, cond) <==> Bit(nzp, 1) == 1)
    ensures cond == FlagPositive ==> (Requested(nzp, cond) <==> Bit(nzp, 0) == 1)
  {
    RequestedCases(nzp, cond);
    var c0, c1, c2 := Bit(cond, 0), Bit(cond, 1), Bit(cond, 2);
    assert c0 == cond % 2 && c1 == (cond / 2) % 2 && c2 == (cond / 4) % 2;
  }

  /** Requested spelled out over the three condition bits. */
  lemma RequestedCases(nzp: nat, cond: Word)
    ensures Requested(nzp, cond) <==>
              (Bit(nzp, 0) == 1 && Bit(cond, 0) == 1) ||
              (Bit(nzp, 1) == 1 && Bit(cond, 1) == 1) ||
              (Bit(nzp, 2) == 1 && Bit(cond, 2) == 1)
  {
    if Requested(nzp, cond) {
      var i :| 0 <= i < 3 && Bit(nzp, i) == 1 && Bit(cond, i) == 1;
      assert i == 0 || i == 1 || i == 2;
    }
    if Bit(nzp, 1) == 1 && Bit(cond, 1) == 1 {
      assert 0 <= 1 < 3;
    }
    if Bit(nzp, 2) == 1 && Bit(cond, 2) == 1 {
      assert 0 <= 2 < 3;
    }
  }

  /** JMP (and RET): PC := the base register. */
  function Jump(vm: Vm, instr: Word): (out: Vm)
    ensures out.reg[PC] == vm.reg[Sr1(instr)]
    ensures RegistersOnly(vm, out, PC, PC)
  {
    SetReg(vm, PC, vm.reg[Sr1(instr)])
  }

  /** JSR and JSRR: R7 := the incremented PC; with bit 11 set PC moves by the signed
      11-bit offset, and otherwise PC becomes the 3-bit number in bits 8-6 itself,
      not the contents of that register. */
  function JumpRegister(vm: Vm, instr: Word): (out: Vm)
    ensures out.reg[R7] == vm.reg[PC]
    ensures Field(instr, 11, 1) > 0 ==> out.reg[PC] == Address(vm.reg[PC], SignedField(instr, 11))
    ensures Field(instr, 11, 1) == 0 ==> out.reg[PC] == Sr1(instr)
    ensures RegistersOnly(vm, out, R7, PC)
  {
    var linked := SetReg(vm, R7, vm.reg[PC]);
    OffsetAddress(vm.reg[PC], instr, 11);
    if Field(instr, 11, 1) > 0 then SetReg(linked, PC, WrappingAdd(linked.reg[PC], Offset(instr, 11)))
    else SetReg(linked, PC, Field(instr, 6, 3))
  }

  // ---------------------------------------------------------------------------
  // Memory instructions

  /** A handler's machine together with the input it left unread. */
  datatype Polled = Polled(vm: Vm, input: seq<Byte>)

  /** The address PC + sext(bits 8-0) used by LD, LDI, LEA, ST and STI. */
  function PcRelative(vm: Vm, instr: Word): (a: Word)
    ensures a == Address(vm.reg[PC], SignedField(instr, 9))
  {
    OffsetAddress(vm.reg[PC], instr, 9);
    WrappingAdd(vm.reg[PC], Offset(instr, 9))
  }

  /** The address base + sext(bits 5-0) used by LDR and STR. */
  function BaseRelative(vm: Vm, instr: Word): (a: Word)
    ensures a == Address(vm.reg[Sr1(instr)], SignedField(instr, 6))
  {
    OffsetAddress(vm.reg[Sr1(instr)], instr, 6);
    WrappingAdd(vm.reg[Sr1(instr)], Offset(instr, 6))
  }

  /** DR := the word read at address through the bus, then the flags follow DR. */
  function LoadFrom(vm: Vm, instr: Word, address: Word, input: seq<Byte>): (out: Polled)
    ensures var r := MemRead(vm.memory, address, input);
            out.vm.reg[Dr(instr)] == r.value && out.vm.memory == r.memory && out.input == r.input
    ensures out.vm.reg[COND] == ConditionOf(out.vm.reg[Dr(instr)])
    ensures out.vm.running == vm.running
    ensures forall i :: 0 <= i < RegisterCount && i != Dr(instr) && i != COND ==> out.vm.reg[i] == vm.reg[i]
  {
    var r := MemRead(vm.memory, address, input);
    Polled(UpdateFlags(SetReg(vm.(memory := r.memory), Dr(instr), r.value), Dr(instr)), r.input)
  }

  /** What a read of address does to the input: a read of the status register takes
      one byte, any other read none. */
  function Polls(address: Word): nat {
    if address == KeyboardStatus then 1 else 0
  }

  /** LD: DR := memory[PC + offset9] read through the bus; away from the keyboard
      status register nothing but DR and COND changes. */
  function Load(vm: Vm, instr: Word, input: seq<Byte>): (out: Polled)
    ensures var a := Address(vm.reg[PC], SignedField(instr, 9));
            out.vm.reg[Dr(instr)] == out.vm.memory[a] &&
            out.vm.memory == MemRead(vm.memory, a, input).memory &&
            out.input == Drop(input, Polls(a)) &&
            (a != KeyboardStatus ==> out.vm.memory == vm.memory && out.vm.reg[Dr(instr)] == vm.memory[a])
    ensures out.vm.reg[COND] == ConditionOf(out.vm.reg[Dr(instr)])
    ensures out.vm.running == vm.running
    ensures forall i :: 0 <= i < RegisterCount && i != Dr(instr) && i != COND ==> out.vm.reg[i] == vm.reg[i]
  {
    LoadFrom(vm, instr, PcRelative(vm, instr), input)
  }

  /** LDI: two reads through the bus, DR := memory[memory[PC + offset9]]; each read of
      the status register takes one input byte, and with neither address the status
      register nothing but DR and COND changes. */
  function LoadIndirect(vm: Vm, instr: Word, input: seq<Byte>): (out: Polled)
    ensures var a := Address(vm.reg[PC], SignedField(instr, 9));
            var first := MemRead(vm.memory, a, input);
            out.vm.reg[Dr(instr)] == out.vm.memory[first.value] &&
            out.vm.memory == MemRead(first.memory, first.value, first.input).memory &&
            out.input == Drop(input, Polls(a) + Polls(first.value)) &&
            (a != KeyboardStatus && vm.memory[a] != KeyboardStatus ==>
               out.vm.memory == vm.memory && out.vm.reg[Dr(instr)] == vm.memory[vm.memory[a]])
    ensures out.vm.reg[COND] == ConditionOf(out.vm.reg[Dr(instr)])
    ensures out.vm.running == vm.running
    ensures forall i :: 0 <= i < RegisterCount && i != Dr(instr) && i != COND ==> out.vm.reg[i] == vm.reg[i]
  {
    var first := MemRead(vm.memory, PcRelative(vm, instr), input);
    DropDrop(input, Polls(PcRelative(vm, instr)), Polls(first.value));
    LoadFrom(vm.(memory := first.memory), instr, first.value, first.input)
  }

  /** LDR: DR := memory[base + offset6] read through the bus. */
  function LoadRegister(vm: Vm, instr: Word, input: seq<Byte>): (out: Polled)
    ensures var a := Address(vm.reg[Sr1(instr)], SignedField(instr, 6));
            out.vm.reg[Dr(instr)] == out.vm.memory[a] &&
            out.vm.memory == MemRead(vm.memory, a, input).memory &&
            out.input == Drop(input, Polls(a)) &&
            (a != KeyboardStatus ==> out.vm.memory == vm.memory && out.vm.reg[Dr(instr)] == vm.memory[a])
    ensures out.vm.reg[COND] == ConditionOf(out.vm.reg[Dr(instr)])
    ensures out.vm.running == vm.running
    ensures forall i :: 0 <= i < RegisterCount && i != Dr(instr) && i != COND ==> out.vm.reg[i] == vm.reg[i]
  {
    LoadFrom(vm, instr, BaseRelative(vm, instr), input)
  }

  /** LEA: DR := PC + offset9 itself, with no memory access; the flags follow DR. */
  function LoadEffectiveAddress(vm: Vm, instr: Word): (out: Vm)
    ensures out.reg[Dr(instr)] == Address(vm.reg[PC], SignedField(instr, 9))
    ensures out.reg[COND] == ConditionOf(out.reg[Dr(instr)])
    ensures RegistersOnly(vm, out, Dr(instr), COND)
  {
    UpdateFlags(SetReg(vm, Dr(instr), PcRelative(vm, instr)), Dr(instr))
  }

  /** out differs from vm in the memory cell at address only, which holds value. */
  predicate StoredAt(vm: Vm, out: Vm, address: Word, value: Word) {
    out.reg == vm.reg && out.running == vm.running && out.memory[address] == value &&
    forall a :: 0 <= a < WordCount && a != address ==> out.memory[a] == vm.memory[a]
  }

  /** ST: memory[PC + offset9] := SR, through a plain write. */
  function Store(vm: Vm, instr: Word): (out: Vm)
    ensures StoredAt(vm, out, Address(vm.reg[PC], SignedField(instr, 9)), vm.reg[Dr(instr)])
  {
    vm.(memory := MemWrite(vm.memory, PcRelative(vm, instr), vm.reg[Dr(instr)]))
  }

  /** STI: memory[memory[PC + offset9]] := SR, where the target address is read through the
      bus: an address cell that is the status register is polled first, and its fresh
      value is the target. */
  function StoreIndirect(vm: Vm, instr: Word, input: seq<Byte>): (out: Polled)
    ensures var a := Address(vm.reg[PC], SignedField(instr, 9));
            var first := MemRead(vm.memory, a, input);
            StoredAt(vm.(memory := first.memory), out.vm, first.value, vm.reg[Dr(instr)]) &&
            out.input == Drop(input, Polls(a)) &&
            (a != KeyboardStatus ==> StoredAt(vm, out.vm, vm.memory[a], vm.reg[Dr(instr)]))
  {
    var first := MemRead(vm.memory, PcRelative(vm, instr), input);
    Polled(vm.(memory := MemWrite(first.memory, first.value, vm.reg[Dr(instr)])), first.input)
  }

  /** STR: memory[base + offset6] := SR, through a plain write. */
  function StoreRegister(vm: Vm, instr: Word): (out: Vm)
    ensures StoredAt(vm, out, Address(vm.reg[Sr1(instr)], SignedField(instr, 6)), vm.reg[Dr(instr)])
  {
    vm.(memory := MemWrite(vm.memory, BaseRelative(vm, instr), vm.reg[Dr(instr)]))
  }

  /** ST followed by LD with the same PC and the same offset, away from the status
      register, loads the value stored, whatever the two register fields name. */
  lemma StoreThenLoad(vm: Vm, st: Word, ld: Word, input: seq<Byte>)
    requires SignedField(st, 9) == SignedField(ld, 9)
    requires Address(vm.reg[PC], SignedField(st, 9)) != KeyboardStatus
    ensures Load(Store(vm, st), ld, input).vm.reg[Dr(ld)] == vm.reg[Dr(st)]
    ensures Load(Store(vm, st), ld, input).input == input
  {
    var stored := Store(vm, st);
    assert stored.reg == vm.reg;
  }
}
