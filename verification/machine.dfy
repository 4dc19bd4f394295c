/** The LC-3 machine state: 65536 words of memory, the register file and the
    running flag, together with the error and result types of the engine. */
module Machine {
  import opened Words

  /** R0-R7, the program counter, the condition register and the unused `Count` slot
      the source's array also allocates. */
  const RegisterCount: nat := 11

  const R0: nat := 0
  const R7: nat := 7
  const PC: nat := 8
  const COND: nat := 9

  /** Memory-mapped keyboard registers. */
  const KeyboardStatus: Word := 0xFE00
  const KeyboardData: Word := 0xFE02

  /** Condition codes: exactly one of them is stored by every flag update. */
  const FlagPositive: Word := 1
  const FlagZero: Word := 2
  const FlagNegative: Word := 4

  /** Where execution starts after the image is loaded. */
  const StartAddress: Word := 0x3000

  type Memory = m: seq<Word> | |m| == 0x10000 witness seq(0x10000, _ => 0)

  type Registers = r: seq<Word> | |r| == 11 witness seq(11, _ => 0)

  datatype Vm = Vm(memory: Memory, reg: Registers, running: bool)

  datatype Option<T> = None | Some(value: T)

  /** The fatal conditions of the engine; each is a panic in the source. */
  datatype Error =
    | TruncatedImage               // a program image with an odd trailing byte
    | UnknownInstruction(instr: Word)  // opcode 8 (unused) or 13 (reserved)
    | NoCharacter                  // GETC or IN at the end of the input
    | Unterminated(address: Word)  // PUTS or PUTSP over a memory with no terminator: the loop never ends

  datatype Result<T> = Ok(value: T) | Err(error: Error) {
    predicate IsFailure() {
      Err?
    }

    function PropagateFailure<U>(): Result<U>
      requires Err?
    {
      Err(error)
    }

    function Extract(): T
      requires Ok?
    {
      value
    }
  }

  /** What one step leaves behind: the machine, the unread input and the bytes written. */
  datatype Effect = Effect(vm: Vm, input: seq<Byte>, output: seq<Byte>)

  /** The machine `VM::new` builds: every register and cell 0, not running. */
  function New(): (vm: Vm)
    ensures !vm.running
    ensures forall i :: 0 <= i < RegisterCount ==> vm.reg[i] == 0
    ensures forall a :: 0 <= a < WordCount ==> vm.memory[a] == 0
  {
    Vm(seq(WordCount, _ => 0), seq(RegisterCount, _ => 0), false)
  }

  function SetReg(vm: Vm, r: nat, v: Word): (out: Vm)
    requires r < RegisterCount
    ensures out.reg[r] == v && out.memory == vm.memory && out.running == vm.running
    ensures forall i :: 0 <= i < RegisterCount && i != r ==> out.reg[i] == vm.reg[i]
  {
    vm.(reg := vm.reg[r := v])
  }

  /** The address i words after base, wrapping at the end of memory. */
  function Address(base: Word, i: int): Word {
    (base + i) % WordCount
  }

  /** How many words after base the address a lies, going forward and wrapping. */
  function Distance(base: Word, a: Word): (d: nat)
    ensures d < WordCount && Address(base, d) == a
  {
    (a - base) % WordCount
  }

  lemma AddressStep(base: Word, i: int)
    ensures Address(WrappingAdd(base, 1), i) == Address(base, i + 1)
  {
  }

  /** Stepping the base forward by one brings every other address one step closer. */
  lemma DistanceStep(base: Word, a: Word)
    ensures a != base ==> Distance(WrappingAdd(base, 1), a) == Distance(base, a) - 1
    ensures Distance(WrappingAdd(base, 1), base) == WordCount - 1
    ensures Distance(base, a) == 0 <==> a == base
  {
  }
}
