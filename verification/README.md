# LC-3 virtual machine, modelled in Dafny

This project models the core of `src/lc3_vm.rs`, a small LC-3 virtual machine
written in Rust:

- the loader `read_program`;
- the fetch–decode–execute loop of `VM::start`;
- the thirteen instruction handlers and `update_flags`;
- the TRAP dispatch and its six service routines;
- the memory bus `mem_read` / `mem_write`, with its keyboard polling;
- the helpers `swap_endian` and `sign_extend`.

The machine is immutable data: `Machine.Vm` holds 65536 memory words, the eleven
registers of the source's `reg` array, and the `running` flag. Every handler is a
pure function from one machine to the next.

Standard input is the sequence of bytes not yet read. The keyboard poll and the
GETC/IN routines both take from it, one byte per `stdin().bytes().next()`.
Standard output is the sequence of bytes a step writes. `print!("{}", b as char)`
writes the UTF-8 of a code point below U+0100, so a byte of 0x80 or more comes out
as two bytes. The model encodes this and proves it decodes back.

The panics and endless loops that the model covers become an `Err`:

- `TruncatedImage`: an odd trailing byte in the image.
- `UnknownInstruction`: opcode 8 or 13.
- `NoCharacter`: GETC or IN at the end of input.
- `Unterminated`: PUTS, or PUTSP, over a memory where the string never ends.

Panics on a failed OS read (src/lc3_vm.rs:122, 135-137, 398) and on a failed
`flush` are not modelled, because the model's I/O cannot fail. The endless
`while self.running` loop of `start` (src/lc3_vm.rs:86) is not an `Err` either:
`Engine.Run` runs a bounded number of steps.

Words and bytes are the integer subset types `0..0xFFFF` and `0..0xFF`, not
`bv16` and `bv8`. `u16` addition is written out as addition modulo 2^16. That is
what a release build computes. AND, OR and NOT are defined bit by bit, and
`>>` / `& mask` is `Field`, that is `(w / 2^lo) % 2^width`. The lemmas in `Words`
connect these definitions to arithmetic.

The modules follow the source:

- `Words`: 16-bit arithmetic, the bitwise operations, `swap_endian` and `sign_extend`.
- `Machine`: the machine state and its constants.
- `Bus`: `mem_read` and `mem_write`.
- `Loader`: `read_program`.
- `Instructions`: the handlers and `update_flags`.
- `Traps`: `trap` and the service routines.
- `Engine`: opcodes, dispatch, one step, a bounded run, and boot.

## Behaviour of the code that the model keeps

The model follows the code as written where the code departs from the LC-3
architecture.

- JSRR (`jump_register` with bit 11 clear) sets PC to the 3-bit register number
  `(instr >> 6) & 7` itself, not to that register's contents (src/lc3_vm.rs:225).
  See `Engine.JumpRegisterUsesField`.
- In `trap`, the fourth arm `TRAP_TRAP_IN` is not a declared constant, because the
  constant is `TRAP_IN`. In a Rust pattern it is therefore a binding that matches
  every vector not caught above it. Vectors 0x20, 0x21 and 0x22 run GETC, OUT and
  PUTS. Every other vector runs IN, including 0x24 (PUTSP) and 0x25 (HALT). The
  PUTSP and HALT routines are modelled but never selected. No step stops a running
  machine, so `start` ends only by a panic. See `Traps.DispatchAgainstTable`,
  `Engine.HaltVectorReadsInstead` and `Engine.Run`.
- COND starts at 0. Until the first flag update, no branch is taken, not even
  BRnzp (`Engine.NoBranchBeforeFlags`).
- TRAP does not save the return address in R7. GETC and IN do not update the
  flags.
- PC is incremented before dispatch, so every offset is relative to the next
  instruction.
- A short origin read is not an error. With a one-byte or empty image, the
  unfilled buffer bytes stay 0.
- A read of the keyboard status register 0xFE00 polls standard input.
  - A newline byte is consumed but leaves the status register 0.
  - Each read polls again, so a second read overwrites the first poll's verdict
    (`Bus.RepeatedPoll`).
  - Any read polls: an instruction fetch, LD, LDI (both reads), LDR, and the
    address read of STI.
- PUTSP ends a string at a word whose high byte is 0, after printing its low
  byte. A zero low byte under a nonzero high byte is printed as NUL and does not
  end the string (`Traps.PutspZeroLowByte`).
- PUTS and PUTSP read memory directly, not through the bus, and their address
  wraps at 0xFFFF. Their text is defined with a fuel of at most 65536 words. With
  65536 words of fuel, running out means that the source's loop never ends.

## Model

| member | source | states |
|---|---|---|
| Words.SignExtendValue | src/lc3_vm.rs:418-425 | sign extension of an n-bit field keeps a field with clear top bit, adds 2^16 - 2^n to one with set top bit, keeps the low n bits, sets all bits above exactly when the top bit is set, and preserves the field's two's-complement value |
| Words.SwapEndianRoundTrip | src/lc3_vm.rs:414-416 | reading a byte pair big-endian is b0 * 256 + b1, and it inverts splitting a word into its high and low byte |
| Words.AddSigned | src/lc3_vm.rs:153-154 | u16 addition of a sign-extended offset is addition of its signed value modulo 2^16 |
| Words.WrappingAddIsTwosComplement | src/lc3_vm.rs:154-157 | wrapping u16 addition is two's-complement addition, exact whenever the signed sum fits in 16 bits |
| Words.AndBitwise | src/lc3_vm.rs:170-176 | bit i of `a & b` is set exactly when bit i is set in both |
| Words.NotIsSubtraction | src/lc3_vm.rs:186 | the 16-bit complement `!a` is 0xFFFF - a |
| Words.AndNonzero | src/lc3_vm.rs:198 | `a & b > 0` exactly when some bit is set in both |
| Words.MaskIsModulo | src/lc3_vm.rs:144-150 | masking with 2^w - 1, as in `(instr >> 9) & 0x7`, is taking the value modulo 2^w |
| Machine.New | src/lc3_vm.rs:71-77 | a new machine has every register and memory cell 0 and is not running |
| Bus.KeyboardPoll | src/lc3_vm.rs:389-408 | a poll that yields a non-newline byte sets the status register to 0x8000 and latches the byte in the data register; end of input or a newline sets the status to 0 and keeps the data register; no other cell changes |
| Bus.MemRead | src/lc3_vm.rs:388-411 | a read returns the cell after any poll; only a read of 0xFE00 polls and consumes one input byte; away from 0xFE00 nothing changes |
| Bus.MemWrite | src/lc3_vm.rs:384-386 | a write stores the value at the address and changes no other cell |
| Bus.ReadAfterWrite | src/lc3_vm.rs:384-411 | a read after a write of the same address returns the written value, except at 0xFE00, where the poll replaces it |
| Bus.RepeatedPoll | src/lc3_vm.rs:388-411 | two reads of the status register poll twice; the second poll decides the data register, and a key from the first survives only if the second finds none |
| Loader.Origin | src/lc3_vm.rs:121-123 | the origin is the first two bytes read big-endian, with missing bytes read as 0 |
| Loader.PairsOk | src/lc3_vm.rs:125-137 | the body decodes exactly when its length is even, into half as many words |
| Loader.PairsAt | src/lc3_vm.rs:127-128 | body word i is the big-endian pair at bytes 2i and 2i+1 |
| Loader.StoreWordsAt | src/lc3_vm.rs:127-130 | word i is stored at origin + i modulo 2^16, unless a later word wraps onto the same cell |
| Loader.StoreWordsFrame | src/lc3_vm.rs:125-139 | a cell beyond the last stored word keeps its value |
| Loader.LoadWordsContents | src/lc3_vm.rs:125-139 | the loop fails exactly on an odd body; otherwise word i is at origin + i and cells no word reaches are unchanged |
| Loader.ReadProgramContents | src/lc3_vm.rs:120-140 | loading fails exactly when the image has more than two bytes and odd length; otherwise the image's words lie from the origin upwards and all other cells keep their values |
| Loader.PairsEncode | src/lc3_vm.rs:127-128 | decoding the big-endian encoding of words gives the words back |
| Loader.ReadProgramRoundTrip | src/lc3_vm.rs:120-140 | loading the image of up to 2^16 words at an origin stores exactly those words from the origin upwards and leaves every other cell alone |
| Loader.OneWordImage | src/lc3_vm.rs:120-140 | a four-byte image stores its one word at 0x3000; one more byte makes loading fail |
| Instructions.Offset | src/lc3_vm.rs:418-425 | the sign-extended low n bits of an instruction have the field's two's-complement value and keep its low n bits |
| Instructions.OffsetAddress | src/lc3_vm.rs:191-203 | PC or a base register plus a sign-extended offset, with u16 wrap-around, is the address that many words away modulo 2^16 |
| Instructions.SignBit | src/lc3_vm.rs:244 | `v >> 15` is 1 exactly for v >= 0x8000 |
| Instructions.UpdateFlags | src/lc3_vm.rs:240-249 | COND becomes Zero exactly for 0, Negative exactly for bit 15 set, Positive otherwise, which is the sign of the two's-complement value; no other register changes |
| Instructions.Operand2 | src/lc3_vm.rs:150-157 | the second operand is the sign-extended imm5 when bit 5 is set, else the register in bits 2-0 |
| Instructions.Add | src/lc3_vm.rs:142-161 | DR becomes SR1 plus the register or signed imm5 modulo 2^16, and COND follows DR; only DR and COND change |
| Instructions.And | src/lc3_vm.rs:163-178 | each bit of DR is the AND of that bit of SR1 and operand 2, and COND follows DR; only DR and COND change |
| Instructions.Not | src/lc3_vm.rs:180-188 | DR becomes 0xFFFF - SR, and COND follows DR; only DR and COND change |
| Instructions.AndClears | src/lc3_vm.rs:163-178 | AND with immediate 0 clears DR and sets the Zero flag |
| Instructions.NotNot | src/lc3_vm.rs:180-188 | NOT applied twice to the same register gives it back |
| Instructions.BranchTest | src/lc3_vm.rs:198 | the test `nzp & COND > 0` holds exactly when a condition bit is both requested and set |
| Instructions.Branch | src/lc3_vm.rs:190-209 | PC moves by the signed 9-bit offset exactly when a requested condition bit is set in COND; otherwise nothing changes |
| Instructions.RequestedFlag | src/lc3_vm.rs:198 | for COND 0 no branch is taken, and for each flag a branch is taken exactly when its n, z or p bit asks for it |
| Instructions.Jump | src/lc3_vm.rs:211-215 | PC becomes the base register; nothing else changes |
| Instructions.JumpRegister | src/lc3_vm.rs:217-227 | R7 gets the incremented PC; with bit 11 set PC moves by the signed 11-bit offset, and otherwise PC becomes the register number in bits 8-6 |
| Instructions.PcRelative | src/lc3_vm.rs:233-235 | the PC-relative address is PC plus the signed 9-bit offset modulo 2^16 |
| Instructions.BaseRelative | src/lc3_vm.rs:266-271 | the base-relative address is the base register plus the signed 6-bit offset modulo 2^16 |
| Instructions.Load | src/lc3_vm.rs:229-238 | DR gets the word at PC + offset9 read through the bus, memory is what that read leaves, and COND follows DR; away from 0xFE00 it is the stored word and memory and input are unchanged |
| Instructions.LoadIndirect | src/lc3_vm.rs:251-262 | DR gets the word read through the bus at the address read through the bus at PC + offset9, memory is what the two reads leave, and each read of 0xFE00 takes one byte; away from 0xFE00 memory is unchanged |
| Instructions.LoadRegister | src/lc3_vm.rs:264-273 | DR gets the word at base + offset6 read through the bus, memory is what that read leaves, and COND follows DR; away from 0xFE00 memory and input are unchanged |
| Instructions.LoadEffectiveAddress | src/lc3_vm.rs:275-283 | DR gets PC + offset9 itself, and COND follows DR |
| Instructions.Store | src/lc3_vm.rs:285-293 | SR is stored at PC + offset9; no other cell and no register changes |
| Instructions.StoreIndirect | src/lc3_vm.rs:295-301 | SR is stored at the address read, through the bus, at PC + offset9; an address cell at 0xFE00 is polled first |
| Instructions.StoreRegister | src/lc3_vm.rs:303-309 | SR is stored at base + offset6; no other cell and no register changes |
| Instructions.StoreThenLoad | src/lc3_vm.rs:285-293 | ST followed by LD at the same PC and offset, away from 0xFE00, loads the stored value and reads no input |
| Traps.DispatchAgainstTable | src/lc3_vm.rs:311-322 | the dispatch agrees with the declared vectors 0x20-0x23 only; PUTSP and HALT are never selected, and exactly the vectors other than 0x20-0x22 run IN |
| Traps.Utf8RoundTrip | src/lc3_vm.rs:338 | the UTF-8 that printing bytes as `char`s produces decodes back to those bytes |
| Traps.PutsTextContents | src/lc3_vm.rs:342-352 | PUTS prints the low bytes of the words before the first zero word, and runs out of fuel exactly when no word within the fuel is zero |
| Traps.PutsStops | src/lc3_vm.rs:342-352 | with a whole memory of fuel, PUTS fails to stop exactly when no word of memory is zero |
| Traps.PutspRunsOut | src/lc3_vm.rs:362-377 | PUTSP runs out of fuel exactly when every word it looks at has a nonzero high byte |
| Traps.PutspReadsPacked | src/lc3_vm.rs:362-377 | PUTSP over a string packed two bytes per word, low byte first, prints that string |
| Traps.PutspZeroLowByte | src/lc3_vm.rs:365-372 | a zero low byte under a nonzero high byte is printed and does not end the string |
| Traps.ReadCharacter | src/lc3_vm.rs:324-334 | GETC fails exactly at the end of input; otherwise R0 gets the next byte and nothing else changes |
| Traps.MaskByte | src/lc3_vm.rs:333 | masking a byte with 0xFF keeps it |
| Traps.WriteCharacter | src/lc3_vm.rs:336-340 | OUT writes the UTF-8 of the low byte of R0 and changes nothing |
| Traps.WriteString | src/lc3_vm.rs:342-352 | PUTS fails exactly when no memory word is zero; otherwise it writes the UTF-8 of the PUTS text from R0 and changes nothing |
| Traps.ReadPrompted | src/lc3_vm.rs:354-360 | IN fails with `NoCharacter` exactly at the end of input; otherwise it writes the prompt, puts the next byte in R0 and consumes it, and changes nothing else |
| Traps.WritePacked | src/lc3_vm.rs:362-377 | PUTSP fails, with `Unterminated` at R0, exactly when all 2^16 words from R0 have a nonzero high byte; otherwise it writes the UTF-8 of the PUTSP text and changes nothing |
| Traps.Shutdown | src/lc3_vm.rs:379-382 | HALT writes "Goodbye!" and a newline and stops the machine |
| Traps.Trap | src/lc3_vm.rs:311-322 | TRAP fails exactly when GETC or IN meets the end of input, with `NoCharacter`, or PUTS meets a memory with no zero word, with `Unterminated` at R0; GETC and IN put the next byte in R0, consume it, and write nothing or the prompt; OUT and PUTS change neither the machine nor the input and write the UTF-8 of R0's low byte or of the PUTS text; memory, the running flag and every register but R0 are always kept |
| Engine.OpcodeRoundTrip | src/lc3_vm.rs:27-51 | `from_integer` and the discriminants are inverse on 0-15 |
| Engine.OpcodeOf | src/lc3_vm.rs:89 | the opcode of an instruction has discriminant `instr >> 12` |
| Engine.Execute | src/lc3_vm.rs:100-116 | each opcode value 0-7, 9-12 and 14 runs its own handler (0 BR, 1 ADD, 2 LD, 3 ST, 4 JSR, 5 AND, 6 LDR, 7 STR, 9 NOT, 10 LDI, 11 STI, 12 JMP, 14 LEA) with no output, and 15 runs TRAP; the unknown-instruction panic happens exactly for 8 and 13; only TRAP can fail otherwise or write output; no handler stops the machine, and COND stays 0 or a flag |
| Engine.Fetch | src/lc3_vm.rs:88-95 | the fetched word, memory and input are those of a bus read at PC, poll included, and PC is incremented with wrap-around before dispatch |
| Engine.Step | src/lc3_vm.rs:86-117 | a step executes the fetched word on the machine whose PC already points past it; it panics with an unknown instruction exactly for fetched opcodes 8 and 13, keeps the machine running, and keeps COND 0 or a flag |
| Engine.Run | src/lc3_vm.rs:85-117 | any number of steps that do not panic leave a running machine running, with COND 0 or a flag |
| Engine.Boot | src/lc3_vm.rs:79-85 | boot fails exactly on an image longer than two bytes with odd length; otherwise the image is loaded into zero memory, PC is 0x3000, every other register is 0, and the machine runs |
| Engine.StepBranch | src/lc3_vm.rs:88-95 | a fetched BR sets PC to the next address, moved by the signed offset exactly when a requested bit is set in COND, and changes nothing else |
| Engine.NoBranchBeforeFlags | src/lc3_vm.rs:190-209 | while COND is 0, a BR only advances PC |
| Engine.Return | src/lc3_vm.rs:211-215 | RET (0xC1C0) sets PC to R7 and changes nothing else |
| Engine.CallReturns | src/lc3_vm.rs:217-227 | JSR followed by RET with R7 untouched returns to the instruction after the call |
| Engine.JumpRegisterUsesField | src/lc3_vm.rs:225 | JSRR jumps to the register number in bits 8-6, not to the register's contents |
| Engine.HaltVectorReadsInstead | src/lc3_vm.rs:318 | TRAP x25 prompts, reads a character into R0 and keeps the machine running |

## Left out

- `src/main.rs` is not part of this model. It is a separate draft that does not use `src/lc3_vm.rs`: it declares its own `VM` and `start`, and its `mem_read` and `mem_write` are stubs that read 0 and store nothing.
- Real I/O. Files, stdin and stdout are byte sequences. OS read errors, the short reads of `File::read` other than at the end of the file, and `flush` failures are not modelled.
- Debug-build overflow panics. Every `u16` `+` is modelled as the wrap-around a release build performs.
- Engine.Run: the `while self.running` loop has no bound. The model runs at most a given number of steps. A run's `Err` drops the output that earlier steps already printed.
- Traps.ReadPrompted: on `Err` the prompt is dropped. The source prints and flushes "Enter a character: " before the GETC panic, so that prompt was already visible.
- Traps.PutsText: an endless PUTS or PUTSP loop is the error `Unterminated` after 2^16 words, not a hang.
- Traps.WritePacked: its error clause names the condition of a PUTSP that runs out of fuel. PUTSP is never selected by the dispatch, so the `Trap` contract does not mention it.
- Timing and the terminal. `stdin().bytes().next()` blocks until a byte arrives or input ends; the model abstracts that wait away, so a poll sees the next byte of the sequence or its end, and a status of 0 means end of input or a newline, never "no key yet". The source puts the terminal in no special mode, so none is modelled.
