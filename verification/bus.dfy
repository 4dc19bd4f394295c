/** The memory bus of the engine: plain writes, and reads that poll the keyboard
    when they touch the keyboard status register.

    Standard input is the sequence of bytes not yet read; each
    `stdin().bytes().next()` takes its first byte, and an empty sequence is the end
    of input. The keyboard poll and the GETC trap draw from this one sequence. */
module Bus {
  import opened Words
  import opened Machine

  const Newline: Byte := 10

  /** The byte the next `stdin().bytes().next()` yields, or None at the end of input. */
  function NextByte(input: seq<Byte>): (key: Option<Byte>)
    ensures key.None? <==> |input| == 0
    ensures key.Some? ==> key.value == input[0]
  {
    if |input| == 0 then None else Some(input[0])
  }

  /** The first k bytes of the input, or all of it if it is shorter, consumed. */
  function Drop(input: seq<Byte>, k: nat): (rest: seq<Byte>)
    ensures |rest| == if k <= |input| then |input| - k else 0
    ensures rest == input[|input| - |rest|..]
  {
    if k <= |input| then input[k..] else []
  }

  /** Consuming j bytes and then k more consumes j + k. */
  lemma DropDrop(input: seq<Byte>, j: nat, k: nat)
    ensures Drop(Drop(input, j), k) == Drop(input, j + k)
  {
  }

  /** The keyboard device's response to one poll that yielded key: a byte other than
      a newline is latched into the data register and flagged ready in bit 15 of the
      status register; no byte, or a newline, leaves the status register 0. */
  function KeyboardPoll(mem: Memory, key: Option<Byte>): (out: Memory)
    ensures key.Some? && key.value != Newline ==>
              out[KeyboardStatus] == 0x8000 && out[KeyboardData] == key.value
    ensures key.None? || key.value == Newline ==>
              out[KeyboardStatus] == 0 && out[KeyboardData] == mem[KeyboardData]
    ensures forall a :: 0 <= a < WordCount && a != KeyboardStatus && a != KeyboardData ==>
              out[a] == mem[a]
  {
    match key
    case None => mem[KeyboardStatus := 0]
    case Some(c) =>
      if c != Newline then mem[KeyboardStatus := 0x8000][KeyboardData := c]
      else mem[KeyboardStatus := 0]
  }

  /** The outcome of one `mem_read`: memory after any poll, the word read, the unread input. */
  datatype Read = Read(memory: Memory, value: Word, input: seq<Byte>)

  /** `mem_read`: a read of the keyboard status register first polls the input; every
      read returns the cell as it stands after the poll. */
  function MemRead(mem: Memory, address: Word, input: seq<Byte>): (r: Read)
    ensures r.value == r.memory[address]
    ensures address != KeyboardStatus ==>
              r.memory == mem && r.input == input && r.value == mem[address]
    ensures address == KeyboardStatus ==>
              r.input == Drop(input, 1) &&
              r.value == (if |input| > 0 && input[0] != Newline then 0x8000 else 0)
    ensures address == KeyboardStatus && |input| > 0 && input[0] != Newline ==>
              r.memory[KeyboardData] == input[0]
    ensures address == KeyboardStatus && (|input| == 0 || input[0] == Newline) ==>
              r.memory[KeyboardData] == mem[KeyboardData]
    ensures forall a :: 0 <= a < WordCount && a != KeyboardStatus && a != KeyboardData ==>
              r.memory[a] == mem[a]
  {
    var polled := if address == KeyboardStatus then KeyboardPoll(mem, NextByte(input)) else mem;
    var rest := if address == KeyboardStatus then Drop(input, 1) else input;
    Read(polled, polled[address], rest)
  }

  /** `mem_write`: a plain store that never polls the keyboard. */
  function MemWrite(mem: Memory, address: Word, value: Word): (out: Memory)
    ensures out[address] == value
    ensures forall a :: 0 <= a < WordCount && a != address ==> out[a] == mem[a]
  {
    mem[address := value]
  }

  /** Reading the status register twice in a row: the second read polls again and
      overwrites the first poll's verdict, so a key read by the first poll is only
      still visible in the data register. */
  lemma RepeatedPoll(mem: Memory, c: Byte, input: seq<Byte>)
    requires c != Newline
    ensures var first := MemRead(mem, KeyboardStatus, [c] + input);
            var second := MemRead(first.memory, KeyboardStatus, first.input);
            first.value == 0x8000 && first.input == input &&
            second.memory[KeyboardData] == (if |input| > 0 && input[0] != Newline then input[0] else c)
  {
    assert ([c] + input)[1..] == input;
  }

  /** A read after a write of the same address returns the written value, unless
      the address is the status register: then the read polls and the poll's verdict
      replaces the value. */
  lemma ReadAfterWrite(mem: Memory, address: Word, value: Word, input: seq<Byte>)
    ensures address != KeyboardStatus ==>
              MemRead(MemWrite(mem, address, value), address, input).value == value
    ensures address == KeyboardStatus ==>
              MemRead(MemWrite(mem, address, value), address, input).value ==
              (if |input| > 0 && input[0] != Newline then 0x8000 else 0)
  {
  }
}
