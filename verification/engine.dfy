/** The fetch-decode-execute cycle of `VM::start`: booting from a program image, one
    step, and a run of at most a given number of steps. */
module Engine {
  import opened Words
  import opened Machine
  import opened Bus
  import opened Loader
  import Instructions
  import Traps

  /** `OperationCodes`, in discriminant order. */
  datatype Opcode =
    | Branch | Add | Load | Store | JumpRegister | And | LoadRegister | StoreRegister
    | Unused | Not | LoadIndirect | StoreIndirect | Jump | Reserved | LoadEffectiveAddress | Trap

  /** The discriminant of each opcode. */
  function Discriminant(op: Opcode): (n: nat)
    ensures n < 16
  {
    match op
    case Branch => 0
    case Add => 1
    case Load => 2
    case Store => 3
    case JumpRegister => 4
    case And => 5
    case LoadRegister => 6
    case StoreRegister => 7
    case Unused => 8
    case Not => 9
    case LoadIndirect => 10
    case StoreIndirect => 11
    case Jump => 12
    case Reserved => 13
    case LoadEffectiveAddress => 14
    case Trap => 15
  }

  /** `OperationCodes::from_integer`: the opcode whose discriminant is n. The source
      transmutes `n as u8`, which names a variant because n = instr >> 12 < 16. */
  function FromInteger(n: nat): Opcode
    requires n < 16
  {
    if n == 0 then Branch
    else if n == 1 then Add
    else if n == 2 then Load
    else if n == 3 then Store
    else if n == 4 then JumpRegister
    else if n == 5 then And
    else if n == 6 then LoadRegister
    else if n == 7 then StoreRegister
    else if n == 8 then Unused
    else if n == 9 then Not
    else if n == 10 then LoadIndirect
    else if n == 11 then StoreIndirect
    else if n == 12 then Jump
    else if n == 13 then Reserved
    else if n == 14 then LoadEffectiveAddress
    else Trap
  }

  /** `from_integer` and the discriminants are inverse: every 4-bit value names exactly
      one opcode. */
  lemma OpcodeRoundTrip(op: Opcode, n: nat)
    requires n < 16
    ensures FromInteger(Discriminant(op)) == op
    ensures Discriminant(FromInteger(n)) == n
  {
  }

  /** The opcode of an instruction, `instr >> 12`. */
  function OpcodeOf(instr: Word): (op: Opcode)
    ensures Discriminant(op) == instr / 0x1000
  {
    FromInteger(instr / 0x1000)
  }

  /** The opcode that each value of `instr >> 12` names. */
  lemma DecodeTable(instr: Word)
    ensures OpcodeOf(instr) == Branch <==> instr / 0x1000 == 0
    ensures OpcodeOf(instr) == Add <==> instr / 0x1000 == 1
    ensures OpcodeOf(instr) == Load <==> instr / 0x1000 == 2
    ensures OpcodeOf(instr) == Store <==> instr / 0x1000 == 3
    ensures OpcodeOf(instr) == JumpRegister <==> instr / 0x1000 == 4
    ensures OpcodeOf(instr) == And <==> instr / 0x1000 == 5
    ensures OpcodeOf(instr) == LoadRegister <==> instr / 0x1000 == 6
    ensures OpcodeOf(instr) == StoreRegister <==> instr / 0x1000 == 7
    ensures OpcodeOf(instr) == Unused <==> instr / 0x1000 == 8
    ensures OpcodeOf(instr) == Not <==> instr / 0x1000 == 9
    ensures OpcodeOf(instr) == LoadIndirect <==> instr / 0x1000 == 10
    ensures OpcodeOf(instr) == StoreIndirect <==> instr / 0x1000 == 11
    ensures OpcodeOf(instr) == Jump <==> instr / 0x1000 == 12
    ensures OpcodeOf(instr) == Reserved <==> instr / 0x1000 == 13
    ensures OpcodeOf(instr) == LoadEffectiveAddress <==> instr / 0x1000 == 14
    ensures OpcodeOf(instr) == Trap <==> instr / 0x1000 == 15
  {
  }

  /** The effect of a handler that writes no output. */
  function Silent(vm: Vm, input: seq<Byte>): Result<Effect> {
    Ok(Effect(vm, input, []))
  }

  /** The dispatch of `start`: each opcode's handler, and a panic for Unused (8) and
      Reserved (13). Only TRAP writes output or fails otherwise; no handler stops the
      machine, and COND keeps a value that is 0 or a flag. */
  function Execute(vm: Vm, instr: Word, input: seq<Byte>): (r: Result<Effect>)
    ensures OpcodeOf(instr) == Unused || OpcodeOf(instr) == Reserved ==> r == Err(UnknownInstruction(instr))
    ensures r.Err? ==> OpcodeOf(instr) in {Unused, Reserved, Trap}
    ensures r.Err? && r.error.UnknownInstruction? <==> instr / 0x1000 == 8 || instr / 0x1000 == 13
    ensures r.Ok? && OpcodeOf(instr) != Trap ==> r.value.output == []
    ensures r.Ok? ==> r.value.vm.running == vm.running
    ensures r.Ok? && Instructions.ValidCondition(vm.reg[COND]) ==>
              Instructions.ValidCondition(r.value.vm.reg[COND])
    ensures instr / 0x1000 == 0 ==> r == Silent(Instructions.Branch(vm, instr), input)
    ensures instr / 0x1000 == 1 ==> r == Silent(Instructions.Add(vm, instr), input)
    ensures instr / 0x1000 == 2 ==>
              var p := Instructions.Load(vm, instr, input); r == Silent(p.vm, p.input)
    ensures instr / 0x1000 == 3 ==> r == Silent(Instructions.Store(vm, instr), input)
    ensures instr / 0x1000 == 4 ==> r == Silent(Instructions.JumpRegister(vm, instr), input)
    ensures instr / 0x1000 == 5 ==> r == Silent(Instructions.And(vm, instr), input)
    ensures instr / 0x1000 == 6 ==>
              var p := Instructions.LoadRegister(vm, instr, input); r == Silent(p.vm, p.input)
    ensures instr / 0x1000 == 7 ==> r == Silent(Instructions.StoreRegister(vm, instr), input)
    ensures instr / 0x1000 == 9 ==> r == Silent(Instructions.Not(vm, instr), input)
    ensures instr / 0x1000 == 10 ==>
              var p := Instructions.LoadIndirect(vm, instr, input); r == Silent(p.vm, p.input)
    ensures instr / 0x1000 == 11 ==>
              var p := Instructions.StoreIndirect(vm, instr, input); r == Silent(p.vm, p.input)
    ensures instr / 0x1000 == 12 ==> r == Silent(Instructions.Jump(vm, instr), input)
    ensures instr / 0x1000 == 14 ==> r == Silent(Instructions.LoadEffectiveAddress(vm, instr), input)
    ensures instr / 0x1000 == 15 ==> r == Traps.Trap(vm, instr, input)
  {
    DecodeTable(instr);
    match OpcodeOf(instr)
    case Branch => Silent(Instructions.Branch(vm, instr), input)
    case Add => Silent(Instructions.Add(vm, instr), input)
    case Load =>
      var p := Instructions.Load(vm, instr, input);
      Silent(p.vm, p.input)
    case Store => Silent(Instructions.Store(vm, instr), input)
    case JumpRegister => Silent(Instructions.JumpRegister(vm, instr), input)
    case And => Silent(Instructions.And(vm, instr), input)
    case LoadRegister =>
      var p := Instructions.LoadRegister(vm, instr, input);
      Silent(p.vm, p.input)
    case StoreRegister => Silent(Instructions.StoreRegister(vm, instr), input)
    case Unused => Err(UnknownInstruction(instr))
    case Not => Silent(Instructions.Not(vm, instr), input)
    case LoadIndirect =>
      var p := Instructions.LoadIndirect(vm, instr, input);
      Silent(p.vm, p.input)
    case StoreIndirect =>
      var p := Instructions.StoreIndirect(vm, instr, input);
      Silent(p.vm, p.input)
    case Jump => Silent(Instructions.Jump(vm, instr), input)
    case Reserved => Err(UnknownInstruction(instr))
    case LoadEffectiveAddress => Silent(Instructions.LoadEffectiveAddress(vm, instr), input)
    case Trap => Traps.Trap(vm, instr, input)
  }

  /** The instruction word a step fetches, and the machine and input after the fetch
      and the increment of PC, which happen before dispatch. */
  datatype Fetched = Fetched(instr: Word, vm: Vm, input: seq<Byte>)

  function Fetch(vm: Vm, input: seq<Byte>): (f: Fetched)
    ensures f.vm.reg[PC] == Address(vm.reg[PC], 1)
    ensures forall i :: 0 <= i < RegisterCount && i != PC ==> f.vm.reg[i] == vm.reg[i]
    ensures f.vm.running == vm.running
    ensures vm.reg[PC] != KeyboardStatus ==>
              f.instr == vm.memory[vm.reg[PC]] && f.vm.memory == vm.memory && f.input == input
    ensures var read := MemRead(vm.memory, vm.reg[PC], input);
            f.instr == read.value && f.vm.memory == read.memory && f.input == read.input
  {
    var read := MemRead(vm.memory, vm.reg[PC], input);
    Fetched(read.value, vm.(memory := read.memory, reg := vm.reg[PC := WrappingAdd(vm.reg[PC], 1)]), read.input)
  }

  /** One iteration of the loop in `start`: the fetched word is executed on the machine
      whose PC already points past it. */
  function Step(vm: Vm, input: seq<Byte>): (r: Result<Effect>)
    ensures var instr := Fetch(vm, input).instr;
            r.Err? && r.error.UnknownInstruction? <==> instr / 0x1000 == 8 || instr / 0x1000 == 13
    ensures r.Ok? ==> r.value.vm.running == vm.running
    ensures r.Ok? && Instructions.ValidCondition(vm.reg[COND]) ==>
              Instructions.ValidCondition(r.value.vm.reg[COND])
    ensures var f := Fetch(vm, input);
            f.vm.reg[PC] == Address(vm.reg[PC], 1) && r == Execute(f.vm, f.instr, f.input)
  {
    var f := Fetch(vm, input);
    Execute(f.vm, f.instr, f.input)
  }

  /** At most fuel iterations of the loop in `start`, stopping early if the machine
      stops running; the output of the steps is concatenated. No number of steps
      stops a running machine: the HALT routine is never selected, so the loop of
      `start` only ends by a panic. COND keeps a value that is 0 or a flag
      throughout. */
  function Run(vm: Vm, input: seq<Byte>, fuel: nat): (r: Result<Effect>)
    ensures r.Ok? ==> r.value.vm.running == vm.running
    ensures r.Ok? && Instructions.ValidCondition(vm.reg[COND]) ==>
              Instructions.ValidCondition(r.value.vm.reg[COND])
    decreases fuel
  {
    if fuel == 0 || !vm.running then Ok(Effect(vm, input, []))
    else
      var first :- Step(vm, input);
      var rest :- Run(first.vm, first.input, fuel - 1);
      Ok(Effect(rest.vm, rest.input, first.output + rest.output))
  }

  /** `start` before its loop: the image is loaded into a fresh machine, PC is set to
      0x3000 and the machine runs; every other register, COND included, is 0. */
  function Boot(image: seq<Byte>): (r: Result<Vm>)
    ensures r.Err? <==> |image| > 2 && |image| % 2 == 1
    ensures r.Err? ==> r.error == TruncatedImage
    ensures r.Ok? ==>
              r.value.running && r.value.reg[PC] == StartAddress &&
              (forall i :: 0 <= i < RegisterCount && i != PC ==> r.value.reg[i] == 0) &&
              ReadProgram(New().memory, image) == Ok(r.value.memory)
  {
    ReadProgramContents(New().memory, image);
    var mem :- ReadProgram(New().memory, image);
    Ok(Vm(mem, New().reg[PC := StartAddress], true))
  }

  // ---------------------------------------------------------------------------
  // Properties of a step

  /** A fetched BR leaves PC at the instruction's address + 1 when the condition
      bits it requests are not set in COND, and moves it by the signed 9-bit offset
      from there when they are; nothing else changes. */
  lemma StepBranch(vm: Vm, input: seq<Byte>)
    requires vm.reg[PC] != KeyboardStatus
    requires vm.memory[vm.reg[PC]] / 0x1000 == 0
    ensures var instr := vm.memory[vm.reg[PC]];
            var next := Address(vm.reg[PC], 1);
            var out := Step(vm, input).value.vm;
            Step(vm, input).Ok? && Step(vm, input).value.input == input &&
            Step(vm, input).value.output == [] &&
            out.reg[PC] == (if Instructions.Requested(Instructions.Dr(instr), vm.reg[COND])
                            then Address(next, Instructions.SignedField(instr, 9))
                            else next) &&
            out.memory == vm.memory &&
            forall i :: 0 <= i < RegisterCount && i != PC ==> out.reg[i] == vm.reg[i]
  {
  }

  /** Before the first flag update COND is 0, and then no BR is taken, not even the
      unconditional BRnzp. */
  lemma NoBranchBeforeFlags(vm: Vm, input: seq<Byte>)
    requires vm.reg[COND] == 0
    requires vm.reg[PC] != KeyboardStatus
    requires vm.memory[vm.reg[PC]] / 0x1000 == 0
    ensures Step(vm, input).Ok?
    ensures Step(vm, input).value.vm.reg[PC] == Address(vm.reg[PC], 1)
  {
    StepBranch(vm, input);
    Instructions.RequestedFlag(Instructions.Dr(vm.memory[vm.reg[PC]]), 0);
  }

  /** RET, that is JMP R7 (0xC1C0), sets PC to R7 and changes nothing else. */
  lemma Return(vm: Vm, input: seq<Byte>)
    ensures Execute(vm, 0xC1C0, input) == Ok(Effect(vm.(reg := vm.reg[PC := vm.reg[R7]]), input, []))
  {
    assert OpcodeOf(0xC1C0) == Jump;
    assert Instructions.Sr1(0xC1C0) == 7 by {
      Pow2Sixteen();
    }
  }

  /** A subroutine call with JSR followed, in the subroutine, by RET with R7 untouched
      comes back to the instruction after the call. */
  lemma CallReturns(vm: Vm, input: seq<Byte>)
    requires vm.reg[PC] != KeyboardStatus
    requires vm.memory[vm.reg[PC]] / 0x1000 == 4
    requires Field(vm.memory[vm.reg[PC]], 11, 1) == 1
    ensures Step(vm, input).Ok?
    ensures var called := Step(vm, input).value.vm;
            called.reg[R7] == Address(vm.reg[PC], 1) &&
            called.reg[PC] == Address(Address(vm.reg[PC], 1), Instructions.SignedField(vm.memory[vm.reg[PC]], 11)) &&
            Execute(called, 0xC1C0, input).value.vm.reg[PC] == Address(vm.reg[PC], 1)
  {
    var called := Step(vm, input).value.vm;
    Return(called, input);
  }

  /** The form of JSR with bit 11 clear jumps to the register number in bits 8-6, not
      to the register's contents. */
  lemma JumpRegisterUsesField(vm: Vm, input: seq<Byte>)
    requires vm.reg[PC] != KeyboardStatus
    requires vm.memory[vm.reg[PC]] / 0x1000 == 4
    requires Field(vm.memory[vm.reg[PC]], 11, 1) == 0
    ensures Step(vm, input).Ok?
    ensures Step(vm, input).value.vm.reg[PC] == Instructions.Sr1(vm.memory[vm.reg[PC]])
    ensures Step(vm, input).value.vm.reg[R7] == Address(vm.reg[PC], 1)
  {
  }

  /** TRAP x25, HALT by its declared vector, runs the IN routine: it prompts, reads a
      character into R0 and the machine keeps running. */
  lemma HaltVectorReadsInstead(vm: Vm, c: Byte, input: seq<Byte>)
    requires vm.reg[PC] != KeyboardStatus
    requires vm.memory[vm.reg[PC]] == 0xF025
    ensures Step(vm, [c] + input).Ok?
    ensures var out := Step(vm, [c] + input).value;
            out.vm.running == vm.running && out.vm.reg[R0] == c &&
            out.input == input && out.output == Traps.Prompt()
  {
    Pow2Sixteen();
    assert Field(0xF025, 0, 8) == 0x25;
    Traps.DispatchAgainstTable(0x25);
    assert ([c] + input)[1..] == input;
  }
}
