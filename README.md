# LC-3 virtual machine in Dafny

This project models the core of a small LC-3 virtual machine written in C
(`main.c`) and proves properties of that model.

The machine state is the pair of global arrays `memory` and `reg`, the flag
`running`, and the two console streams. The model covers:

- the instruction set: ADD, AND, NOT, BR, JMP, JSR/JSRR, LD, LDI, LDR, LEA, ST,
  STI, STR and TRAP;
- the trap routines GETC, OUT, PUTS, IN, PUTSP and HALT;
- the memory-mapped keyboard registers KBSR and KBDR;
- the fetch/dispatch loop;
- the loading of big-endian image files into memory.

The project has four modules:

- `Bits` (`bits.dfy`): 16-bit words and the pure helpers of the program.
  These are `sign_extend`, `swap16`, the flag rule of `update_flag`, and the
  field decoding of an instruction. `uint16_t` arithmetic is written out
  modulo 2^16.
- `Isa` (`isa.dfy`): the machine as a value (`Machine`). Every handler, trap
  routine and memory-mapped register access is a function from machine to
  machine. `Step` is one cycle of the dispatch loop and `Run` is the loop with
  a cycle budget. `LoadImage`, `LoadAll` and `Boot` build the machine that
  `main` starts from.
- `Vm` (`vm.dfy`): the imperative machine, written as the C program runs it.
  - Class `Lc3` holds `memory` and `reg` as arrays and `running` as a field.
  - Each C function is a method that updates those fields in place. Its
    contract says that the new `State()` is what the `Isa` function gives for
    the old one.
  - `Puts` is the `while (*c)` loop. `ReadImageFile` is the `fread` copy
    followed by the in-place `swap16` loop. `Run` is the `while (running)`
    loop. `Launch` is `main` after its argument checks.
- `Properties` (`properties.dfy`): lemmas relating several operations. They
  cover runs, fetch and dispatch, the signed reading of offsets, the traps,
  the keyboard, image loading, and a worked two-instruction program.

The model keeps the following behaviour of the program as written:

- `memory` has `UINT16_MAX` (65535) cells, so address 0xFFFF lies outside the
  array.
- JMP decodes its base register with the five-bit mask 0x1F.
- JSRR R7 writes R7 before it reads the base, so it leaves PC where it was.
- TRAP IN has no `break`, so it goes on into PUTSP.
- PUTSP writes `cell & 0xF` and then 0x00 or 0xFF (the sign of the low byte).
  It does not write the two characters packed in the cell.
- PUTS has no bound on its walk.
- The fetch increments PC before it dispatches, so every PC-relative address
  is computed from the address of the instruction plus one.
- COND starts at 0, which matches no condition flag. A BR before the first
  flag update is not taken.
- Only the fetch reads through `mmr_read`. LD, LDI and LDR read `memory`
  directly (main.c:272, 279, 287), so a load from KBSR returns the stored word
  and does not poll the keyboard.
- Nothing calls `mmr_write`. ST, STI and STR write `memory` directly
  (main.c:301, 307, 314). `Isa.MmrWrite` and `Vm.Lc3.MmrWrite` model a
  function that the program declares but never uses.

The C program has undefined behaviour in some places: a read or write of
cell 0xFFFF, a JMP base index of 10 or more, or a PUTS walk past the last
cell. The model does not invent a result for these. It stops the machine
with a `Fault` (`BadAddress` or `BadRegister`). The opcodes RTI and RES call
`abort()` (exit code 5), which is the fault `IllegalOpcode`.

## Model

| member | source | states |
|---|---|---|
| Bits.Add16 | main.c:218 | `uint16_t` addition: the result is the sum, or the sum minus 2^16 when it overflows |
| Bits.Not16 | main.c:243 | `~x` is the 16-bit complement: x plus ~x is 0xFFFF |
| Bits.BitAnd | main.c:231-233 | `a & b` is at most each operand; its bit-by-bit law is `Bits.BitAndBits` |
| Bits.BitAndBits | main.c:231-233 | bit i of `a & b` is set iff bit i is set in both a and b |
| Bits.BitAndPow2 | main.c:250 | `a & 2^k` is 2^k when bit k of a is set and 0 otherwise |
| Bits.BitAndLowMask | main.c:248 | masking with 2^k - 1 (`& 0x1FF`, `& 0x3F`, `& 0x1F`, `& 0x7FF`) keeps the value modulo 2^k |
| Bits.ToSigned | main.c:393-397 | a word as a two's-complement number is in [-2^15, 2^15) and is negative iff the word is at least 0x8000 |
| Bits.SignExtend | main.c:383-388 | bit n-1 clear: the data is returned unchanged; bit n-1 set: the low n bits are kept and every bit from n to 15 is set |
| Bits.SignExtendValue | main.c:383-388 | the result read as a signed word has the two's-complement value of the n-bit field |
| Bits.TopBit | main.c:384 | the sign bit `(data >> (n-1)) & 1` is set iff the field is at least 2^(n-1) |
| Bits.SignExtendMod | main.c:383-388 | the result is the signed value of the n-bit field reduced modulo 2^16 |
| Bits.ByteSplit | main.c:408-410 | a word is its high byte times 256 plus its low byte, the two halves `swap16` exchanges |
| Bits.Swap16 | main.c:408-410 | the result's low byte is x's high byte and its high byte is x's low byte |
| Bits.Swap16Involution | main.c:408-410 | swapping twice gives the word back |
| Bits.SwapReadsBigEndian | main.c:198-199 | swap16 of a word read on a little-endian host is the big-endian value of the two file bytes |
| Bits.FlagOf | main.c:390-398 | exactly one of POS/ZRO/NEG; ZRO iff the data is 0; NEG iff bit 15 is set iff the data is negative as a signed word; POS iff it is positive |
| Bits.Opcode | main.c:142 | `inst >> 12` is below 16 |
| Bits.Field9 | main.c:211 | `(instr >> 9) & 0x7` names one of the eight general registers |
| Bits.Field6 | main.c:212 | `(instr >> 6) & 0x7` names one of the eight general registers |
| Bits.Field0 | main.c:214 | `instr & 0x7` names one of the eight general registers |
| Bits.Flag5 | main.c:213 | the C test `(instr >> 5) & 0x1` is 1 exactly when bit 5 of the instruction is set |
| Bits.Flag11 | main.c:262 | the C test `(instr >> 11) & 1` is 1 exactly when bit 11 of the instruction is set |
| Bits.Imm5 | main.c:217 | `sign_extend(instr & 0x1F, 5)` read as signed is the two's-complement value of the 5-bit field, and is that value modulo 2^16 |
| Bits.Offset6 | main.c:286 | `sign_extend(instr & 0x3F, 6)` read as signed is the value of the 6-bit field, and is that value modulo 2^16 |
| Bits.Offset9 | main.c:271 | `sign_extend(instr & 0x1FF, 9)` read as signed is the value of the 9-bit field, and is that value modulo 2^16 |
| Bits.Offset11 | main.c:263 | `sign_extend(instr & 0x7FF, 11)` read as signed is the value of the 11-bit field, and is that value modulo 2^16 |
| Bits.TrapVector | main.c:318 | `inst & 0xFF` is below 256 |
| Isa.InMemory | main.c:106 | an address is inside `memory` iff it is below UINT16_MAX (65535) |
| Isa.UpdateFlag | main.c:390-398 | COND becomes the flag of the data, is one-hot afterwards, and no other register or state changes |
| Isa.WriteResult | main.c:222-223 | dr receives the value and COND its flag; nothing else changes |
| Isa.LoadFrom | main.c:272-273 | a load from a cell inside memory writes that cell into dr with its flag; a load from 0xFFFF is a fault that changes nothing |
| Isa.StoreTo | main.c:301 | a store changes exactly one cell, or faults at 0xFFFF without changing anything |
| Isa.Add | main.c:210-224 | dr = sr1 + (sign-extended imm5, or sr2) modulo 2^16, COND from that sum; only dr and COND change |
| Isa.And | main.c:226-236 | dr = sr1 & (sign-extended imm5, or sr2), COND from it; only dr and COND change |
| Isa.Not | main.c:238-245 | dr = ~sr, COND from it; only dr and COND change |
| Isa.Br | main.c:247-253 | taken iff the n/z/p mask meets COND: then only PC changes, to PC + sext(offset9); otherwise the machine is unchanged |
| Isa.JmpBase | main.c:256 | the base index decoded with the mask 0x1F is below 32 |
| Isa.Jmp | main.c:255-258 | PC becomes reg[base] and nothing else changes; a base index past the register file is a fault |
| Isa.Jsr | main.c:260-267 | R7 becomes the incremented PC; PC becomes PC + sext(offset11), or the base register read after the R7 write (JSRR R7 keeps PC); only R7 and PC change |
| Isa.Ld | main.c:269-274 | dr = memory[PC + sext(offset9)] with its flag; only dr and COND change; address 0xFFFF faults |
| Isa.Ldi | main.c:276-281 | dr = memory[memory[PC + sext(offset9)]] with its flag; a fault at either level of indirection |
| Isa.Ldr | main.c:283-289 | dr = memory[base + sext(offset6)] with its flag; only dr and COND change |
| Isa.Lea | main.c:291-296 | dr = PC + sext(offset9) (no memory read), COND from it; only dr and COND change |
| Isa.St | main.c:298-302 | memory[PC + sext(offset9)] = sr; exactly one cell changes and no register does |
| Isa.Sti | main.c:304-308 | memory[memory[PC + sext(offset9)]] = sr; exactly one cell changes; a fault at either level |
| Isa.Str | main.c:310-315 | memory[base + sext(offset6)] = sr; exactly one cell changes |
| Isa.CharCode | main.c:343 | `(uint16_t)getchar()` is C's conversion modulo 2^16: a byte is kept and EOF (-1) becomes 0xFFFF |
| Isa.GetC | main.c:342-344 | R0 takes the next byte (0xFFFF at EOF), which is consumed; no echo, no flag update, nothing else changes |
| Isa.Out | main.c:346-349 | writes the low byte of R0 and changes nothing else |
| Isa.PutsFrom | main.c:353-356 | the walk writes at most one byte per remaining cell (only that; the bytes and the fault are `Properties.PutsString`, `Properties.PutsRunsOff` and `Properties.PutsRunsOffIff`) |
| Isa.Puts | main.c:351-358 | writes the low byte of each cell from R0 up to the first zero cell; a walk past the last cell is a fault; only the output changes |
| Isa.CharByte | main.c:362 | `char ch = getchar()` keeps the value modulo 2^8: a byte is kept and EOF (-1) becomes the byte 0xFF |
| Isa.In | main.c:360-366 | writes the prompt, consumes one byte, echoes it, and sets R0 to that byte sign-extended from a signed char; memory, running and the other registers are unchanged |
| Isa.PutspBytes | main.c:370-373 | the two bytes written are `cell & 0xF` and then 0xFF if bit 7 of the cell is set, 0x00 otherwise |
| Isa.Putsp | main.c:368-375 | writes those two bytes for the single cell at R0, changing only the output; R0 = 0xFFFF faults |
| Isa.Halt | main.c:377-381 | writes "HALT\n" and clears running; nothing else changes |
| Isa.HaltsOn | main.c:333-338 | the vectors that reach `trap_halt` (HALT and the default case) are exactly those outside 0x20..0x24, the five serviced vectors |
| Isa.Trap | main.c:317-340 | memory is unchanged; every register except R0 is unchanged; running stays set iff the vector is GETC, OUT, PUTS, IN or PUTSP (HALT and unknown vectors clear it); output only grows and input is only consumed from the front |
| Isa.MmrRead | main.c:426-436 | reading KBSR with a byte waiting sets KBSR = 0x8000 and KBDR = that byte, consumes it and returns 0x8000; with none waiting, KBSR = 0 is stored and returned; any other address is a plain read that changes nothing |
| Isa.MmrWrite | main.c:422-424 | a store to exactly one cell |
| Isa.Execute | main.c:142-191 | the dispatch on the opcode keeps the machine well formed |
| Isa.ExecuteKeeps | main.c:142-191 | no instruction sets running again, takes back output, or un-consumes input, and none breaks a one-hot COND |
| Isa.Fetched | main.c:141 | `reg[R_PC]++`: PC becomes PC + 1 modulo 2^16 and no other register changes |
| Isa.Step | main.c:141-191 | one cycle keeps the machine well formed (only that; what it does is stated by `Properties.StepFetches`, `Isa.StepKeeps` and `Properties.FetchFromKbsrWithKey`) |
| Isa.StepKeeps | main.c:140-191 | a whole cycle, fetch included, keeps the same four facts |
| Isa.Run | main.c:140-192 | the loop keeps the machine well formed |
| Isa.RunCycle | main.c:140-192 | a running machine with budget left does one cycle; it then stops at a fault or continues from the new state with one cycle less |
| Isa.LoadCount | main.c:201-203 | `fread` delivers no more words than the file has, nor more than fit from origin to the end of memory, and stops at one of the two |
| Isa.WriteSwapped | main.c:204-207 | the swap writes keep the memory size (only that; the cell contents are `Isa.WriteSwappedCells`) |
| Isa.WriteSwappedCells | main.c:204-207 | after the swap loop, each cell of the range holds swap16 of its word and every other cell is unchanged |
| Isa.LoadImage | main.c:196-208 | loading keeps the memory size (only that; the load rule is `Isa.LoadImageCells`) |
| Isa.LoadImageCells | main.c:196-208 | loading an image puts swap16(raw[k]) at swap16(origin) + k for every delivered word and leaves every other cell unchanged |
| Isa.LoadAll | main.c:129-133 | loading the images in argument order keeps the memory size |
| Isa.Initial | main.c:106-108 | the globals start with every cell and register zero and running set |
| Isa.Boot | main.c:129-138 | the starting machine has PC = 0x3000, every other register zero, running set and no output |
| Vm.Lc3.State | main.c:106-108 | the arrays read as a machine value are well formed |
| Vm.Lc3.constructor | main.c:106-108 | fresh arrays hold the initial machine |
| Vm.Lc3.UpdateFlag | main.c:390-398 | the in-place update leaves the state that `Isa.UpdateFlag` gives |
| Vm.Lc3.Add | main.c:210-224 | the in-place update leaves the state that `Isa.Add` gives |
| Vm.Lc3.And | main.c:226-236 | the in-place update leaves the state that `Isa.And` gives |
| Vm.Lc3.Not | main.c:238-245 | the in-place update leaves the state that `Isa.Not` gives |
| Vm.Lc3.Br | main.c:247-253 | the in-place update leaves the state that `Isa.Br` gives |
| Vm.Lc3.Jmp | main.c:255-258 | the new state and fault are those of `Isa.Jmp` |
| Vm.Lc3.Jsr | main.c:260-267 | the in-place update leaves the state that `Isa.Jsr` gives |
| Vm.Lc3.Ld | main.c:269-274 | the new state and fault are those of `Isa.Ld` |
| Vm.Lc3.Ldi | main.c:276-281 | the new state and fault are those of `Isa.Ldi` |
| Vm.Lc3.Ldr | main.c:283-289 | the new state and fault are those of `Isa.Ldr` |
| Vm.Lc3.Lea | main.c:291-296 | the in-place update leaves the state that `Isa.Lea` gives |
| Vm.Lc3.St | main.c:298-302 | the new state and fault are those of `Isa.St` |
| Vm.Lc3.Sti | main.c:304-308 | the new state and fault are those of `Isa.Sti` |
| Vm.Lc3.Str | main.c:310-315 | the new state and fault are those of `Isa.Str` |
| Vm.Lc3.GetC | main.c:342-344 | the new state is that of `Isa.GetC` |
| Vm.Lc3.Out | main.c:346-349 | the new state is that of `Isa.Out` |
| Vm.Lc3.Puts | main.c:351-358 | the `while (*c)` loop leaves the output and fault of `Isa.Puts` |
| Vm.Lc3.In | main.c:360-366 | the new state is that of `Isa.In` |
| Vm.Lc3.Putsp | main.c:368-375 | the new state and fault are those of `Isa.Putsp` |
| Vm.Lc3.Halt | main.c:377-381 | the new state is that of `Isa.Halt` |
| Vm.Lc3.Trap | main.c:317-340 | the switch, with IN falling through into PUTSP, leaves the state and fault of `Isa.Trap` |
| Vm.Lc3.MmrRead | main.c:426-436 | the new state and the returned word are those of `Isa.MmrRead` |
| Vm.Lc3.MmrWrite | main.c:422-424 | the new state is that of `Isa.MmrWrite` |
| Vm.Lc3.Execute | main.c:142-191 | the switch on the opcode leaves the state and fault of `Isa.Execute` |
| Vm.Lc3.Step | main.c:141-191 | one fetch and dispatch leaves the state and fault of `Isa.Step` |
| Vm.Lc3.Run | main.c:140-192 | the `while (running)` loop leaves the state and fault of `Isa.Run` |
| Vm.Lc3.ReadImageFile | main.c:196-208 | the copy loop and the in-place swap loop leave memory equal to `Isa.LoadImage` of the old memory; nothing else changes |
| Vm.Launch | main.c:119-192 | loading every image in order and running from 0x3000 ends in the state and fault of `Isa.Run` on `Isa.Boot` |
| Properties.RunSplit | main.c:140-192 | running a + b cycles is running a cycles and then, unless that faulted, b more |
| Properties.RunStaysHalted | main.c:140 | once running is clear, further cycles change nothing |
| Properties.SuffixTrans | main.c:343 | consuming input from the front twice is consuming from the front |
| Properties.KeepsTrans | main.c:140-192 | the facts no instruction undoes compose over two steps |
| Properties.RunKeeps | main.c:140-192 | a whole run never sets running again, never takes back output, only consumes input from the front, and keeps COND one-hot once it is |
| Properties.StepFetches | main.c:141-143 | a cycle dispatches the instruction at the old PC on a machine whose PC is already incremented modulo 2^16 |
| Properties.FetchFromKbsrWithKey | main.c:141-189 | with PC at KBSR and a key waiting, the whole cycle is given: PC is incremented, KBSR becomes 0x8000, KBDR the key, the key is consumed, and the fetched 0x8000 is RTI, so the cycle aborts |
| Properties.FetchFromKbsrWithoutKey | main.c:141-155 | with PC at KBSR and no key waiting, the fetch stores and reads 0, a BR with an empty mask: the cycle only sets KBSR to 0 and increments PC |
| Properties.ReservedOpcodesAbort | main.c:186-189 | RTI and RES stop the run at once with an illegal-opcode fault; only the PC increment has happened |
| Properties.ExecuteIllegalIff | main.c:143-189 | an instruction ends in the illegal-opcode fault iff its opcode is RTI or RES; the other fourteen opcodes never give it |
| Properties.StepLea | main.c:141-172 | a cycle whose fetched word is a LEA runs `inst_lea` on the machine with PC already incremented, without a fault |
| Properties.PcRelativeFromNextPc | main.c:291-296 | LEA fetched from address pc yields pc + 1 plus the signed offset9, modulo 2^16: `reg[R_PC]` is already incremented by the fetch |
| Properties.AddImmediate | main.c:216-218 | ADD with an immediate adds the signed value of imm5 modulo 2^16 |
| Properties.BranchTarget | main.c:250-251 | a taken branch moves PC by the signed value of offset9 modulo 2^16 |
| Properties.BranchAlwaysNever | main.c:249-250 | BRnzp is taken whenever COND is one-hot; a zero mask never branches and changes nothing |
| Properties.BranchOnFlag | main.c:249-250 | with COND one-hot, BR is taken iff the mask bit of the current condition is set: n (bit 2) for NEG, z (bit 1) for ZRO, p (bit 0) for POS |
| Properties.InAtEndOfInput | main.c:328-375 | TRAP IN at end of input echoes 0xFF, sets R0 to 0xFFFF, and the fall-through into PUTSP then faults on R0 = 0xFFFF |
| Properties.PutspPackedExample | main.c:368-375 | PUTSP on the packed cell "Ai" (0x6941) writes 0x01 and 0x00, not "Ai" |
| Properties.PutsString | main.c:351-358 | for a zero-terminated string of k cells, PUTS writes exactly the k low bytes and does not fault |
| Properties.PutsRunsOff | main.c:351-358 | with no zero cell up to the end of memory, PUTS writes the low byte of every remaining cell, in order, and faults |
| Properties.PutsRunsOffIff | main.c:351-358 | the walk runs past the last cell iff no cell from R0 on is zero |
| Properties.KeyboardPollOnce | main.c:426-436 | with one byte waiting, a first KBSR read reports it and puts it in KBDR; a second read reports nothing |
| Properties.LoadAllUncovered | main.c:129-133 | a cell no image covers keeps its value through the load loop |
| Properties.LoadAllLastWins | main.c:129-133 | a cell the final image covers holds that image's swapped word |
| Properties.LoadAllLastCovering | main.c:129-133 | where images overlap, the last image that covers a cell decides it, whatever later images leave it alone |
| Properties.BootUncoveredZero | main.c:129-138 | in the booted machine every cell no image covers is zero |
| Properties.SampleLoaded | main.c:196-208 | the sample image puts its two instructions at 0x3000 and 0x3001 |
| Properties.SampleFirstCycle | main.c:226-236 | `AND R0, R0, #0` clears R0 and sets COND to ZRO |
| Properties.SampleSecondCycle | main.c:210-224 | `ADD R0, R0, #5` on a cleared R0 leaves 5 and COND = POS |
| Properties.SampleProgram | main.c:119-192 | two cycles of the booted sample leave R0 = 5, COND = POS and PC = 0x3002, without a fault |

## Left out

- Terminal setup (`disable_input_buffering` and `restore_input_buffering`,
  main.c:449-458) is host I/O with no effect on the machine state.
- The SIGINT handler and the exit codes (main.c:122, 125-134, 460-468) are
  not modelled. The argument check and failed `fopen` calls happen before the
  machine exists. `abort()` is the `IllegalOpcode` fault.
- `check_key` (main.c:438-447) is a non-blocking `select` on standard input.
  It is modelled as "the input sequence is not empty". At the end of a finite
  input `select` reports standard input as readable, so the program stores
  0x8000 in KBSR and `getchar()`'s EOF (0xFFFF) in KBDR. The model instead
  treats an empty input as "no key" there and stores 0 in KBSR. It does not
  capture that end-of-input case.
- Standard input and output are byte sequences. `getchar` takes the first
  byte of the input, or gives EOF when it is empty (the helper `Isa.GetChar`).
  `fflush` does nothing in the model, and `printf`, `puts` and `putc` append
  to the output.
- `read_image` (main.c:412-420) opens a file and may fail; that is left out.
  `read_image_file` gets the file as an `Image`: the origin word and the
  program words, each already in host order. An odd trailing byte of a file
  is not modelled.
- `printBits` and `console` (main.c:14-16, 111-117) are debugging output and
  are never called on the machine path.
- `comp_dr` and `comp_sr` (main.c:400-406) are never called.
- Isa.Run, Vm.Lc3.Run, Vm.Launch: the `while (running)` loop runs for at most
  `fuel` cycles. A program that never halts is seen only up to that bound.
- Isa.In: `char` is taken to be signed, so a byte from 0x80 up reaches R0
  sign-extended; with an unsigned `char` R0 would get the byte itself.
- Isa.PutspBytes: `char` is taken to be signed and `>>` of a negative `int`
  arithmetic, so the second byte is 0xFF when bit 7 of the cell is set; with
  an unsigned `char` it would always be 0x00.
- Isa.LoadImage: the host is taken to be little-endian, so the words `fread`
  delivers are byte-swapped file words (`Bits.SwapReadsBigEndian`) and
  `swap16` turns them back into the big-endian file values.
- Isa.Execute, Isa.Run: behaviour the C program leaves undefined (cell
  0xFFFF, a JMP base index of 10 or more, PUTS past the last cell) ends the
  run with a fault. The program's actual behaviour there is not modelled.
