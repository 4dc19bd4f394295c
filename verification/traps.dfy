/** The TRAP instruction: the dispatch on the trap vector and the six service
    routines. Input is the sequence of unread bytes; the bytes a routine writes to
    standard output are returned, in the UTF-8 that `print!("{}", b as char)` emits. */
module Traps {
  import opened Words
  import opened Machine
  import opened Bus

  datatype TrapRoutine = GetCharacter | Out | Puts | Scan | PutsTwo | Halt

  // ---------------------------------------------------------------------------
  // Dispatch

  /** The trap vectors the engine declares, 0x20 to 0x25, and the routine each names. */
  function DeclaredRoutine(code: nat): Option<TrapRoutine> {
    if code == 0x20 then Some(GetCharacter)
    else if code == 0x21 then Some(Out)
    else if code == 0x22 then Some(Puts)
    else if code == 0x23 then Some(Scan)
    else if code == 0x24 then Some(PutsTwo)
    else if code == 0x25 then Some(Halt)
    else None
  }

  /** The routine `trap` runs for the vector `instr & 0xFF`. The first three arms
      compare with declared constants; the fourth arm's name is not a declared
      constant, so it binds the vector and matches everything that is left. */
  function SelectTrap(code: nat): (r: TrapRoutine) {
    if code == 0x20 then GetCharacter
    else if code == 0x21 then Out
    else if code == 0x22 then Puts
    else Scan
  }

  /** The dispatch agrees with the declared table on 0x20 to 0x23 only: PUTSP and
      HALT are never selected, 0x24 and 0x25 run the IN routine like every
      undeclared vector, and IN is selected exactly off the first three vectors. */
  lemma DispatchAgainstTable(code: nat)
    ensures 0x20 <= code <= 0x23 ==> Some(SelectTrap(code)) == DeclaredRoutine(code)
    ensures SelectTrap(code) != PutsTwo && SelectTrap(code) != Halt
    ensures SelectTrap(code) == Scan <==> !(0x20 <= code <= 0x22)
    ensures DeclaredRoutine(code).None? ==> SelectTrap(code) == Scan
    ensures SelectTrap(0x24) == Scan && DeclaredRoutine(0x24) == Some(PutsTwo)
    ensures SelectTrap(0x25) == Scan && DeclaredRoutine(0x25) == Some(Halt)
  {
  }

  // ---------------------------------------------------------------------------
  // Character output

  /** The UTF-8 encoding of the code point U+0000 to U+00FF that a byte becomes as a
      Rust `char`. */
  function Utf8(b: Byte): (r: seq<Byte>)
    ensures |r| == 1 <==> b < 0x80
    ensures |r| == 1 || |r| == 2
  {
    if b < 0x80 then [b] else [0xC0 + b / 64, 0x80 + b % 64]
  }

  /** A sequence of bytes printed one `char` at a time. */
  function Utf8All(s: seq<Byte>): (r: seq<Byte>)
    ensures |r| >= |s|
  {
    if |s| == 0 then [] else Utf8(s[0]) + Utf8All(s[1..])
  }

  /** A decoder for the UTF-8 of code points below U+0100: single bytes below 0x80, and
      the pairs 0xC2 or 0xC3 followed by a continuation byte. */
  function DecodeUtf8(bytes: seq<Byte>): Option<seq<Byte>>
    decreases |bytes|
  {
    if |bytes| == 0 then Some([])
    else if bytes[0] < 0x80 then
      match DecodeUtf8(bytes[1..])
      case None => None
      case Some(rest) => Some([bytes[0]] + rest)
    else if (bytes[0] == 0xC2 || bytes[0] == 0xC3) && |bytes| >= 2 && 0x80 <= bytes[1] < 0xC0 then
      match DecodeUtf8(bytes[2..])
      case None => None
      case Some(rest) => Some([(bytes[0] - 0xC0) * 64 + (bytes[1] - 0x80)] + rest)
    else None
  }

  /** Decoding the printed bytes gives back the characters printed. */
  lemma {:induction false} Utf8RoundTrip(s: seq<Byte>)
    ensures DecodeUtf8(Utf8All(s)) == Some(s)
  {
    if |s| > 0 {
      Utf8RoundTrip(s[1..]);
      var e := Utf8All(s);
      var tail := Utf8All(s[1..]);
      if s[0] < 0x80 {
        assert e[1..] == tail;
      } else {
        assert e[0] == 0xC0 + s[0] / 64 && e[1] == 0x80 + s[0] % 64;
        assert e[2..] == tail;
      }
      assert s == [s[0]] + s[1..];
    }
  }

  /** The bytes of an ASCII string. */
  function Ascii(s: string): (r: seq<Byte>)
    requires forall i :: 0 <= i < |s| ==> s[i] as int < 0x80
    ensures |r| == |s|
    ensures forall i :: 0 <= i < |s| ==> r[i] == s[i] as int
  {
    seq(|s|, i requires 0 <= i < |s| => s[i] as int)
  }

  /** What IN writes before it reads. */
  function Prompt(): seq<Byte> {
    Ascii("Enter a character: ")
  }

  /** What HALT writes, with the newline of `println!`. */
  function Farewell(): seq<Byte> {
    Ascii("Goodbye!\n")
  }

  // ---------------------------------------------------------------------------
  // Strings in memory

  /** What `puts` prints from address onwards, reading memory directly and looking at
      no more than fuel words: the low byte of each word before the first zero word.
      None when the fuel runs out first. */
  function PutsText(mem: Memory, address: Word, fuel: nat): Option<seq<Byte>>
    decreases fuel
  {
    if fuel == 0 then None
    else if mem[address] == 0 then Some([])
    else
      match PutsText(mem, WrappingAdd(address, 1), fuel - 1)
      case None => None
      case Some(rest) => Some([LowByte(mem[address])] + rest)
  }

  /** `puts` prints the low bytes of the words before the first zero word within
      fuel words, and runs out of fuel exactly when none of those words is zero. */
  lemma {:induction false} PutsTextContents(mem: Memory, address: Word, fuel: nat)
    ensures PutsText(mem, address, fuel).None? <==>
              forall i :: 0 <= i < fuel ==> mem[Address(address, i)] != 0
    ensures PutsText(mem, address, fuel).Some? ==>
              var s := PutsText(mem, address, fuel).value;
              |s| < fuel && mem[Address(address, |s|)] == 0 &&
              forall i :: 0 <= i < |s| ==>
                mem[Address(address, i)] != 0 && s[i] == LowByte(mem[Address(address, i)])
    decreases fuel
  {
    if fuel > 0 && mem[address] != 0 {
      var next := WrappingAdd(address, 1);
      PutsTextContents(mem, next, fuel - 1);
      forall i | 0 <= i
        ensures Address(next, i) == Address(address, i + 1)
      {
        AddressStep(address, i);
      }
      assert Address(address, 0) == address;
      if PutsText(mem, next, fuel - 1).None? {
        forall i | 0 <= i < fuel
          ensures mem[Address(address, i)] != 0
        {
          if i > 0 {
            assert Address(address, i) == Address(next, i - 1);
          }
        }
      } else {
        var s := PutsText(mem, address, fuel).value;
        var rest := PutsText(mem, next, fuel - 1).value;
        assert s == [LowByte(mem[address])] + rest;
        assert Address(address, |s|) == Address(next, |rest|);
        forall i | 0 <= i < |s|
          ensures mem[Address(address, i)] != 0 && s[i] == LowByte(mem[Address(address, i)])
        {
          if i > 0 {
            assert s[i] == rest[i - 1];
            assert Address(address, i) == Address(next, i - 1);
          }
        }
      }
    } else if fuel > 0 {
      assert Address(address, 0) == address;
    }
  }

  /** With a whole memory's worth of fuel, `puts` fails to stop exactly when no word
      of memory is zero: its loop then never ends. */
  lemma PutsStops(mem: Memory, address: Word)
    ensures PutsText(mem, address, WordCount).None? <==> forall a: Word :: mem[a] != 0
  {
    PutsTextContents(mem, address, WordCount);
    if PutsText(mem, address, WordCount).None? {
      forall a: Word
        ensures mem[a] != 0
      {
        assert Address(address, Distance(address, a)) == a;
      }
    }
  }

  /** What `putsp` prints from address onwards: each nonzero word yields its low byte
      and then, unless it is zero, its high byte; a zero word, or a word whose high
      byte is zero (after its low byte), ends the string. A zero low byte under a
      nonzero high byte is printed and does not end it. None when the fuel runs out. */
  function PutspText(mem: Memory, address: Word, fuel: nat): Option<seq<Byte>>
    decreases fuel
  {
    if fuel == 0 then None
    else if mem[address] == 0 then Some([])
    else if HighByte(mem[address]) == 0 then Some([LowByte(mem[address])])
    else
      match PutspText(mem, WrappingAdd(address, 1), fuel - 1)
      case None => None
      case Some(rest) => Some([LowByte(mem[address]), HighByte(mem[address])] + rest)
  }

  /** `putsp` runs out of fuel exactly when every word it looks at has a nonzero
      high byte. */
  lemma {:induction false} PutspRunsOut(mem: Memory, address: Word, fuel: nat)
    ensures PutspText(mem, address, fuel).None? <==>
              forall i :: 0 <= i < fuel ==> HighByte(mem[Address(address, i)]) != 0
    decreases fuel
  {
    if fuel > 0 && HighByte(mem[address]) != 0 {
      var next := WrappingAdd(address, 1);
      PutspRunsOut(mem, next, fuel - 1);
      assert Address(address, 0) == address;
      forall i | 0 <= i < fuel - 1
        ensures Address(next, i) == Address(address, i + 1)
      {
        AddressStep(address, i);
      }
      if PutspText(mem, next, fuel - 1).None? {
        forall i | 0 <= i < fuel
          ensures HighByte(mem[Address(address, i)]) != 0
        {
          if i > 0 {
            assert Address(address, i) == Address(next, i - 1);
          }
        }
      } else {
        var i :| 0 <= i < fuel - 1 && HighByte(mem[Address(next, i)]) == 0;
        assert HighByte(mem[Address(address, i + 1)]) == 0;
      }
    } else if fuel > 0 {
      assert Address(address, 0) == address;
    }
  }

  /** The words holding a string two characters per word, first character in the low
      byte, as PUTSP expects: an odd last character sits alone, and an even string is
      followed by a zero word. */
  function Pack(s: seq<Byte>): (words: seq<Word>)
    ensures |words| == |s| / 2 + 1
  {
    if |s| == 0 then [0]
    else if |s| == 1 then [s[0]]
    else [s[0] as int + 256 * s[1] as int] + Pack(s[2..])
  }

  /** `putsp` over a packed string of nonzero bytes prints that string. */
  lemma {:induction false} PutspReadsPacked(mem: Memory, address: Word, s: seq<Byte>, fuel: nat)
    requires forall i :: 0 <= i < |s| ==> s[i] != 0
    requires |Pack(s)| <= fuel
    requires forall k :: 0 <= k < |Pack(s)| ==> mem[Address(address, k)] == Pack(s)[k]
    ensures PutspText(mem, address, fuel) == Some(s)
    decreases fuel
  {
    assert Address(address, 0) == address;
    assert mem[address] == Pack(s)[0];
    if |s| == 1 {
      assert HighByte(s[0]) == 0 && LowByte(s[0]) == s[0];
      assert mem[address] != 0 && HighByte(mem[address]) == 0;
      assert PutspText(mem, address, fuel) == Some([LowByte(mem[address])]);
      assert s == [s[0]];
    } else if |s| >= 2 {
      var next := WrappingAdd(address, 1);
      var w := s[0] as int + 256 * s[1] as int;
      assert HighByte(w) == s[1] && LowByte(w) == s[0];
      forall k | 0 <= k < |Pack(s[2..])|
        ensures mem[Address(next, k)] == Pack(s[2..])[k]
      {
        AddressStep(address, k);
        assert Pack(s)[k + 1] == Pack(s[2..])[k];
      }
      PutspReadsPacked(mem, next, s[2..], fuel - 1);
      assert s == [s[0], s[1]] + s[2..];
    }
  }

  /** A word whose low byte is zero under a nonzero high byte does not end a PUTSP
      string: 0x4100 prints a NUL and then 'A'. */
  lemma PutspZeroLowByte(mem: Memory, address: Word)
    requires mem[address] == 0x4100 && mem[WrappingAdd(address, 1)] == 0
    ensures PutspText(mem, address, 2) == Some([0, 0x41])
  {
    assert HighByte(0x4100) == 0x41 && LowByte(0x4100) == 0;
    assert PutspText(mem, WrappingAdd(address, 1), 1) == Some([]);
    assert mem[address] != 0 && HighByte(mem[address]) != 0;
    assert PutspText(mem, address, 2) == Some([LowByte(0x4100), HighByte(0x4100)] + []);
    assert [LowByte(0x4100), HighByte(0x4100)] + [] == [0, 0x41];
  }

  // ---------------------------------------------------------------------------
  // The service routines

  /** `get_character`: R0 := the next input byte (masked to its low 8 bits, which
      keeps it), with no flag update; at the end of input the `expect` panics. */
  function ReadCharacter(vm: Vm, input: seq<Byte>): (r: Result<Effect>)
    ensures r.Err? <==> |input| == 0
    ensures r.Err? ==> r.error == NoCharacter
    ensures r.Ok? ==>
              r.value.vm == vm.(reg := vm.reg[R0 := input[0]]) &&
              r.value.input == input[1..] && r.value.output == []
  {
    match NextByte(input)
    case None => Err(NoCharacter)
    case Some(b) =>
      MaskByte(b);
      Ok(Effect(SetReg(vm, R0, BitAnd(b, 0xFF)), Drop(input, 1), []))
  }

  /** Masking a byte with 0xFF keeps it. */
  lemma MaskByte(b: Byte)
    ensures BitAnd(b, 0xFF) == b
  {
    Pow2Sixteen();
    var mask := Pow2(8) - 1;
    assert mask == 0xFF;
    AndLowMask(b, 8, 16);
    DivModUnique(b, 0x100, 0, b);
  }

  /** `out`: prints the low byte of R0 as a character. */
  function WriteCharacter(vm: Vm, input: seq<Byte>): (r: Result<Effect>)
    ensures r.Ok? && r.value.vm == vm && r.value.input == input
    ensures DecodeUtf8(r.value.output) == Some([vm.reg[R0] % 0x100])
  {
    Utf8RoundTrip([LowByte(vm.reg[R0])]);
    Ok(Effect(vm, input, Utf8All([LowByte(vm.reg[R0])])))
  }

  /** `puts`: prints the string that starts at the address in R0; a memory with no
      zero word from there on is a loop that never ends. */
  function WriteString(vm: Vm, input: seq<Byte>): (r: Result<Effect>)
    ensures r.Err? <==> forall a: Word :: vm.memory[a] != 0
    ensures r.Err? ==> r.error == Unterminated(vm.reg[R0])
    ensures r.Ok? ==> (r.value.vm == vm && r.value.input == input &&
                       DecodeUtf8(r.value.output) == PutsText(vm.memory, vm.reg[R0], WordCount))
  {
    PutsStops(vm.memory, vm.reg[R0]);
    match PutsText(vm.memory, vm.reg[R0], WordCount)
    case None => Err(Unterminated(vm.reg[R0]))
    case Some(s) =>
      Utf8RoundTrip(s);
      Ok(Effect(vm, input, Utf8All(s)))
  }

  /** `scan` (IN): prints the prompt, then reads a character as GETC does. */
  function ReadPrompted(vm: Vm, input: seq<Byte>): (r: Result<Effect>)
    ensures r.Err? <==> |input| == 0
    ensures r.Err? ==> r.error == NoCharacter
    ensures r.Ok? ==>
              r.value.vm == vm.(reg := vm.reg[R0 := input[0]]) &&
              r.value.input == input[1..] && r.value.output == Prompt()
  {
    match ReadCharacter(vm, input)
    case Err(e) => Err(e)
    case Ok(effect) => Ok(effect.(output := Prompt() + effect.output))
  }

  /** `putsp`: prints the packed string that starts at the address in R0. */
  function WritePacked(vm: Vm, input: seq<Byte>): (r: Result<Effect>)
    ensures r.Err? <==> forall i :: 0 <= i < WordCount ==> HighByte(vm.memory[Address(vm.reg[R0], i)]) != 0
    ensures r.Err? ==> r.error == Unterminated(vm.reg[R0])
    ensures r.Ok? ==> (r.value.vm == vm && r.value.input == input &&
                       DecodeUtf8(r.value.output) == PutspText(vm.memory, vm.reg[R0], WordCount))
  {
    PutspRunsOut(vm.memory, vm.reg[R0], WordCount);
    match PutspText(vm.memory, vm.reg[R0], WordCount)
    case None => Err(Unterminated(vm.reg[R0]))
    case Some(s) =>
      Utf8RoundTrip(s);
      Ok(Effect(vm, input, Utf8All(s)))
  }

  /** `halt`: says goodbye and stops the machine. */
  function Shutdown(vm: Vm, input: seq<Byte>): (r: Result<Effect>)
    ensures r.Ok? && !r.value.vm.running
    ensures r.value.vm.memory == vm.memory && r.value.vm.reg == vm.reg && r.value.input == input
    ensures r.value.output == Farewell()
  {
    Ok(Effect(vm.(running := false), input, Farewell()))
  }

  /** TRAP: runs the routine selected by the low 8 bits of the instruction;
      `instr & 0xFF` is `instr % 0x100` (Words.MaskIsModulo). */
  function Trap(vm: Vm, instr: Word, input: seq<Byte>): (r: Result<Effect>)
    ensures var routine := SelectTrap(instr % 0x100);
            r.Err? <==> ((routine == GetCharacter || routine == Scan) && |input| == 0) ||
                        (routine == Puts && forall a: Word :: vm.memory[a] != 0)
    ensures var routine := SelectTrap(instr % 0x100);
            r.Err? ==> r.error == (if routine == Puts then Unterminated(vm.reg[R0]) else NoCharacter)
    ensures r.Ok? ==>
              r.value.vm.memory == vm.memory && r.value.vm.running == vm.running &&
              forall i :: 0 <= i < RegisterCount && i != R0 ==> r.value.vm.reg[i] == vm.reg[i]
    ensures var routine := SelectTrap(instr % 0x100);
            r.Ok? && (routine == GetCharacter || routine == Scan) ==>
              r.value.vm.reg[R0] == input[0] && r.value.input == input[1..] &&
              r.value.output == (if routine == Scan then Prompt() else [])
    ensures var routine := SelectTrap(instr % 0x100);
            r.Ok? && routine != GetCharacter && routine != Scan ==>
              r.value.vm == vm && r.value.input == input
    ensures SelectTrap(instr % 0x100) == Out ==>
              r.Ok? && DecodeUtf8(r.value.output) == Some([vm.reg[R0] % 0x100])
    ensures SelectTrap(instr % 0x100) == Puts && r.Ok? ==>
              DecodeUtf8(r.value.output) == PutsText(vm.memory, vm.reg[R0], WordCount)
  {
    match SelectTrap(instr % 0x100)
    case GetCharacter => ReadCharacter(vm, input)
    case Out => WriteCharacter(vm, input)
    case Puts => WriteString(vm, input)
    case Scan => ReadPrompted(vm, input)
    case PutsTwo => WritePacked(vm, input)
    case Halt => Shutdown(vm, input)
  }
}
