/** The LC-3 machine as values: the state of `main.c` (memory, register file,
    `running`, the console streams), one function per instruction handler and
    trap routine, the fetch-and-dispatch step, the run loop with a step budget,
    and the image loader. The class in module Vm is proved against these. */
module Isa {
  import opened Bits

  /** `memory[UINT16_MAX]`: 65535 cells, so address 0xFFFF is past the end. */
  const MEMORY_SIZE: nat := 0xFFFF

  /** Register indices (`R_R0` .. `R_R7`, `R_PC`, `R_COND`, `R_COUNT`). */
  const R_R0: nat := 0
  const R_R7: nat := 7
  const R_PC: nat := 8
  const R_COND: nat := 9
  const R_COUNT: nat := 10

  /** Opcodes (bits 15..12). */
  const OP_BR: Word := 0
  const OP_ADD: Word := 1
  const OP_LD: Word := 2
  const OP_ST: Word := 3
  const OP_JSR: Word := 4
  const OP_AND: Word := 5
  const OP_LDR: Word := 6
  const OP_STR: Word := 7
  const OP_RTI: Word := 8
  const OP_NOT: Word := 9
  const OP_LDI: Word := 10
  const OP_STI: Word := 11
  const OP_JMP: Word := 12
  const OP_RES: Word := 13
  const OP_LEA: Word := 14
  const OP_TRAP: Word := 15

  /** Trap vectors. */
  const TRAP_GETC: Word := 0x20
  const TRAP_OUT: Word := 0x21
  const TRAP_PUTS: Word := 0x22
  const TRAP_IN: Word := 0x23
  const TRAP_PUTSP: Word := 0x24
  const TRAP_HALT: Word := 0x25

  /** Memory-mapped keyboard status and data registers. */
  const MMR_KBSR: Word := 0xFE00
  const MMR_KBDR: Word := 0xFE02

  /** The address execution starts from once the images are loaded. */
  const PC_START: Word := 0x3000

  /** What `getchar` returns when the input is exhausted. */
  const EOF: int := -1

  /** What `printf("Enter a character: ")` and `puts("HALT")` write. */
  const PROMPT: seq<Byte> :=
    [0x45, 0x6E, 0x74, 0x65, 0x72, 0x20, 0x61, 0x20, 0x63, 0x68,
     0x61, 0x72, 0x61, 0x63, 0x74, 0x65, 0x72, 0x3A, 0x20]
  const HALT_TEXT: seq<Byte> := [0x48, 0x41, 0x4C, 0x54, 0x0A]

  datatype Option<T> = None | Some(value: T)

  /** Why a run stops other than by HALT. `IllegalOpcode` is the `abort()` of the
      dispatch loop; the other two are accesses the C program makes outside its
      arrays (undefined behaviour there), which the model stops at. */
  datatype Fault =
    | IllegalOpcode(op: Word)
    | BadAddress(addr: Word)
    | BadRegister(index: nat)

  /** The whole machine: `memory`, `reg`, `running`, the bytes still to be read
      from standard input and the bytes written to standard output so far. */
  datatype Machine = Machine(
    mem: seq<Word>,
    reg: seq<Word>,
    running: bool,
    input: seq<Byte>,
    output: seq<Byte>)

  /** The arrays have the sizes the C program declares. */
  predicate Valid(m: Machine)
  {
    |m.mem| == MEMORY_SIZE && |m.reg| == R_COUNT
  }

  /** The state after an operation, and the fault that stopped it, if any. */
  datatype Outcome = Outcome(m: Machine, fault: Option<Fault>)

  /** An address inside `memory`. */
  predicate InMemory(a: Word)
    ensures InMemory(a) <==> a < MEMORY_SIZE
  {
    a != 0xFFFF
  }

  /** COND holds exactly one of the three condition codes. */
  predicate CondOneHot(m: Machine)
    requires Valid(m)
  {
    m.reg[R_COND] == FL_POS || m.reg[R_COND] == FL_ZRO || m.reg[R_COND] == FL_NEG
  }

  /** `s` is what is left of `t` after reading some bytes from its front. */
  predicate IsSuffix(s: seq<Byte>, t: seq<Byte>)
  {
    |s| <= |t| && s == t[|t| - |s|..]
  }

  /** `r` differs from `m` at most in the registers of `changed`. */
  predicate RegistersOnly(m: Machine, r: Machine, changed: set<nat>)
    requires Valid(m) && Valid(r)
  {
    r.(reg := m.reg) == m &&
    forall i :: 0 <= i < R_COUNT && i !in changed ==> r.reg[i] == m.reg[i]
  }

  /** `r` is `m` with `v` in register `dr` and COND set from `v`, nothing else. */
  predicate LoadsRegister(m: Machine, r: Machine, dr: nat, v: Word)
    requires Valid(m) && Valid(r) && dr < 8
  {
    RegistersOnly(m, r, {dr, R_COND}) && r.reg[dr] == v && r.reg[R_COND] == FlagOf(v)
  }

  /** `r` is `m` with `v` in memory cell `a`, nothing else. */
  predicate StoresCell(m: Machine, r: Machine, a: Word, v: Word)
    requires Valid(m) && Valid(r) && InMemory(a)
  {
    r.(mem := m.mem) == m && r.mem[a] == v &&
    forall i :: 0 <= i < MEMORY_SIZE && i != a ==> r.mem[i] == m.mem[i]
  }

  // ---------------------------------------------------------------------------
  // Flags and register writes

  /** `update_flag(d)`: COND becomes the flag of `d`; no other register changes. */
  function UpdateFlag(m: Machine, d: Word): (r: Machine)
    requires Valid(m)
    ensures Valid(r) && CondOneHot(r)
    ensures RegistersOnly(m, r, {R_COND}) && r.reg[R_COND] == FlagOf(d)
  {
    m.(reg := m.reg[R_COND := FlagOf(d)])
  }

  /** `reg[dr] = v; update_flag(reg[dr]);`, the tail of every loading handler. */
  function WriteResult(m: Machine, dr: nat, v: Word): (r: Machine)
    requires Valid(m) && dr < 8
    ensures Valid(r) && LoadsRegister(m, r, dr, v)
  {
    UpdateFlag(m.(reg := m.reg[dr := v]), v)
  }

  /** `memory[a]` into `dr` with a flag update, or a fault when `a` is 0xFFFF. */
  function LoadFrom(m: Machine, dr: nat, a: Word): (o: Outcome)
    requires Valid(m) && dr < 8
    ensures Valid(o.m)
    ensures InMemory(a) ==> o.fault == None && LoadsRegister(m, o.m, dr, m.mem[a])
    ensures !InMemory(a) ==> o == Outcome(m, Some(BadAddress(a)))
  {
    if InMemory(a) then Outcome(WriteResult(m, dr, m.mem[a]), None)
    else Outcome(m, Some(BadAddress(a)))
  }

  /** `memory[a] = v`, or a fault when `a` is 0xFFFF. */
  function StoreTo(m: Machine, a: Word, v: Word): (o: Outcome)
    requires Valid(m)
    ensures Valid(o.m)
    ensures InMemory(a) ==> o.fault == None && StoresCell(m, o.m, a, v)
    ensures !InMemory(a) ==> o == Outcome(m, Some(BadAddress(a)))
  {
    if InMemory(a) then Outcome(m.(mem := m.mem[a := v]), None)
    else Outcome(m, Some(BadAddress(a)))
  }

  // ---------------------------------------------------------------------------
  // Instruction handlers

  /** ADD: `dr = sr1 + (imm5 or sr2)` modulo 2^16, flags from the sum. */
  function Add(m: Machine, instr: Word): (r: Machine)
    requires Valid(m)
    ensures Valid(r)
    ensures LoadsRegister(m, r, Field9(instr),
      Add16(m.reg[Field6(instr)], if Flag5(instr) then Imm5(instr) else m.reg[Field0(instr)]))
  {
    var operand := if Flag5(instr) then Imm5(instr) else m.reg[Field0(instr)];
    WriteResult(m, Field9(instr), Add16(m.reg[Field6(instr)], operand))
  }

  /** AND: `dr = sr1 & (imm5 or sr2)`, flags from the result. */
  function And(m: Machine, instr: Word): (r: Machine)
    requires Valid(m)
    ensures Valid(r)
    ensures LoadsRegister(m, r, Field9(instr),
      BitAnd(m.reg[Field6(instr)], if Flag5(instr) then Imm5(instr) else m.reg[Field0(instr)]))
  {
    var operand := if Flag5(instr) then Imm5(instr) else m.reg[Field0(instr)];
    WriteResult(m, Field9(instr), BitAnd(m.reg[Field6(instr)], operand))
  }

  /** NOT: `dr = ~sr`, flags from the result. */
  function Not(m: Machine, instr: Word): (r: Machine)
    requires Valid(m)
    ensures Valid(r)
    ensures LoadsRegister(m, r, Field9(instr), Not16(m.reg[Field6(instr)]))
  {
    WriteResult(m, Field9(instr), Not16(m.reg[Field6(instr)]))
  }

  /** BR: when the n/z/p mask (bits 11..9) meets COND, PC moves by the
      sign-extended offset9; otherwise nothing at all changes. */
  function Br(m: Machine, instr: Word): (r: Machine)
    requires Valid(m)
    ensures Valid(r)
    ensures BitAnd(Field9(instr), m.reg[R_COND]) != 0 ==>
      RegistersOnly(m, r, {R_PC}) && r.reg[R_PC] == Add16(m.reg[R_PC], Offset9(instr))
    ensures BitAnd(Field9(instr), m.reg[R_COND]) == 0 ==> r == m
  {
    if BitAnd(Field9(instr), m.reg[R_COND]) != 0 then
      m.(reg := m.reg[R_PC := Add16(m.reg[R_PC], Offset9(instr))])
    else m
  }

  /** The base-register field of JMP as `inst_jmp` decodes it: five bits (10..6),
      so it can name PC (8), COND (9) or no register at all. */
  function JmpBase(instr: Word): (i: nat)
    ensures i < 32
  {
    (instr / 0x40) % 0x20
  }

  /** JMP: PC becomes `reg[base]`; a base beyond the register file is a fault. */
  function Jmp(m: Machine, instr: Word): (o: Outcome)
    requires Valid(m)
    ensures Valid(o.m)
    ensures JmpBase(instr) < R_COUNT ==>
      o.fault == None && RegistersOnly(m, o.m, {R_PC}) && o.m.reg[R_PC] == m.reg[JmpBase(instr)]
    ensures JmpBase(instr) >= R_COUNT ==> o == Outcome(m, Some(BadRegister(JmpBase(instr))))
  {
    var base := JmpBase(instr);
    if base < R_COUNT then Outcome(m.(reg := m.reg[R_PC := m.reg[base]]), None)
    else Outcome(m, Some(BadRegister(base)))
  }

  /** JSR/JSRR: R7 takes the (already incremented) PC first; then PC becomes
      PC + offset11, or the base register as it reads after that write, so that
      JSRR R7 leaves PC where it was. */
  function Jsr(m: Machine, instr: Word): (r: Machine)
    requires Valid(m)
    ensures Valid(r)
    ensures RegistersOnly(m, r, {R_R7, R_PC})
    ensures r.reg[R_R7] == m.reg[R_PC]
    ensures r.reg[R_PC] ==
      if Flag11(instr) then Add16(m.reg[R_PC], Offset11(instr))
      else if Field6(instr) == R_R7 then m.reg[R_PC]
      else m.reg[Field6(instr)]
  {
    var linked := m.(reg := m.reg[R_R7 := m.reg[R_PC]]);
    if Flag11(instr) then
      linked.(reg := linked.reg[R_PC := Add16(linked.reg[R_PC], Offset11(instr))])
    else
      linked.(reg := linked.reg[R_PC := linked.reg[Field6(instr)]])
  }

  /** LD: `dr = memory[PC + offset9]`, flags from the loaded word. */
  function Ld(m: Machine, instr: Word): (o: Outcome)
    requires Valid(m)
    ensures Valid(o.m)
    ensures var a := Add16(m.reg[R_PC], Offset9(instr));
      if InMemory(a) then o.fault == None && LoadsRegister(m, o.m, Field9(instr), m.mem[a])
      else o == Outcome(m, Some(BadAddress(a)))
  {
    LoadFrom(m, Field9(instr), Add16(m.reg[R_PC], Offset9(instr)))
  }

  /** LDI: `dr = memory[memory[PC + offset9]]`, flags from the loaded word. */
  function Ldi(m: Machine, instr: Word): (o: Outcome)
    requires Valid(m)
    ensures Valid(o.m)
    ensures var a := Add16(m.reg[R_PC], Offset9(instr));
      if !InMemory(a) then o == Outcome(m, Some(BadAddress(a)))
      else if !InMemory(m.mem[a]) then o == Outcome(m, Some(BadAddress(m.mem[a])))
      else o.fault == None && LoadsRegister(m, o.m, Field9(instr), m.mem[m.mem[a]])
  {
    var a := Add16(m.reg[R_PC], Offset9(instr));
    if InMemory(a) then LoadFrom(m, Field9(instr), m.mem[a])
    else Outcome(m, Some(BadAddress(a)))
  }

  /** LDR: `dr = memory[base + offset6]`, flags from the loaded word. */
  function Ldr(m: Machine, instr: Word): (o: Outcome)
    requires Valid(m)
    ensures Valid(o.m)
    ensures var a := Add16(m.reg[Field6(instr)], Offset6(instr));
      if InMemory(a) then o.fault == None && LoadsRegister(m, o.m, Field9(instr), m.mem[a])
      else o == Outcome(m, Some(BadAddress(a)))
  {
    LoadFrom(m, Field9(instr), Add16(m.reg[Field6(instr)], Offset6(instr)))
  }

  /** LEA: `dr = PC + offset9` (an address, not a memory read), flags from it. */
  function Lea(m: Machine, instr: Word): (r: Machine)
    requires Valid(m)
    ensures Valid(r)
    ensures LoadsRegister(m, r, Field9(instr), Add16(m.reg[R_PC], Offset9(instr)))
  {
    WriteResult(m, Field9(instr), Add16(m.reg[R_PC], Offset9(instr)))
  }

  /** ST: `memory[PC + offset9] = sr`; no register changes. */
  function St(m: Machine, instr: Word): (o: Outcome)
    requires Valid(m)
    ensures Valid(o.m)
    ensures var a := Add16(m.reg[R_PC], Offset9(instr));
      if InMemory(a) then o.fault == None && StoresCell(m, o.m, a, m.reg[Field9(instr)])
      else o == Outcome(m, Some(BadAddress(a)))
  {
    StoreTo(m, Add16(m.reg[R_PC], Offset9(instr)), m.reg[Field9(instr)])
  }

  /** STI: `memory[memory[PC + offset9]] = sr`; no register changes. */
  function Sti(m: Machine, instr: Word): (o: Outcome)
    requires Valid(m)
    ensures Valid(o.m)
    ensures var a := Add16(m.reg[R_PC], Offset9(instr));
      if !InMemory(a) then o == Outcome(m, Some(BadAddress(a)))
      else if !InMemory(m.mem[a]) then o == Outcome(m, Some(BadAddress(m.mem[a])))
      else o.fault == None && StoresCell(m, o.m, m.mem[a], m.reg[Field9(instr)])
  {
    var a := Add16(m.reg[R_PC], Offset9(instr));
    if InMemory(a) then StoreTo(m, m.mem[a], m.reg[Field9(instr)])
    else Outcome(m, Some(BadAddress(a)))
  }

  /** STR: `memory[base + offset6] = sr`; no register changes. */
  function Str(m: Machine, instr: Word): (o: Outcome)
    requires Valid(m)
    ensures Valid(o.m)
    ensures var a := Add16(m.reg[Field6(instr)], Offset6(instr));
      if InMemory(a) then o.fault == None && StoresCell(m, o.m, a, m.reg[Field9(instr)])
      else o == Outcome(m, Some(BadAddress(a)))
  {
    StoreTo(m, Add16(m.reg[Field6(instr)], Offset6(instr)), m.reg[Field9(instr)])
  }

  // ---------------------------------------------------------------------------
  // Console and trap routines

  /** `getchar()`: the next input byte (0..255) and the rest of the input, or EOF. */
  function GetChar(input: seq<Byte>): (r: (int, seq<Byte>))
    ensures input == [] ==> r == (EOF, [])
    ensures input != [] ==> r.0 == input[0] && r.1 == input[1..]
  {
    if input == [] then (EOF, []) else (input[0], input[1..])
  }

  /** `(uint16_t)` of what `getchar` returned: EOF becomes 0xFFFF. */
  function CharCode(c: int): (w: Word)
    requires EOF <= c < 0x100
    ensures c == EOF ==> w == 0xFFFF
    ensures c >= 0 ==> w == c
    ensures w == c % 0x10000
  {
    if c == EOF then 0xFFFF else c
  }

  /** TRAP GETC: R0 takes the next input byte (0xFFFF at EOF); no echo, no flag. */
  function GetC(m: Machine): (r: Machine)
    requires Valid(m)
    ensures Valid(r)
    ensures r.(reg := m.reg, input := m.input) == m
    ensures forall i :: 0 <= i < R_COUNT && i != R_R0 ==> r.reg[i] == m.reg[i]
    ensures m.input == [] ==> r.input == [] && r.reg[R_R0] == 0xFFFF
    ensures m.input != [] ==> r.input == m.input[1..] && r.reg[R_R0] == m.input[0]
  {
    var (c, rest) := GetChar(m.input);
    m.(reg := m.reg[R_R0 := CharCode(c)], input := rest)
  }

  /** TRAP OUT: writes the low byte of R0. */
  function Out(m: Machine): (r: Machine)
    requires Valid(m)
    ensures Valid(r)
    ensures r.(output := m.output) == m
    ensures r.output == m.output + [LowByte(m.reg[R_R0])]
  {
    m.(output := m.output + [LowByte(m.reg[R_R0])])
  }

  /** The walk of `trap_puts` from cell `a`: the bytes written before the first
      zero cell, and whether the walk ran past the last cell (it neither wraps
      nor stops at the end of `memory`). */
  function PutsFrom(mem: seq<Word>, a: nat): (r: (seq<Byte>, bool))
    requires a <= |mem|
    ensures |r.0| <= |mem| - a
    decreases |mem| - a
  {
    if a == |mem| then ([], true)
    else if mem[a] == 0 then ([], false)
    else
      var rest := PutsFrom(mem, a + 1);
      ([LowByte(mem[a])] + rest.0, rest.1)
  }

  /** TRAP PUTS: the string of one-character cells at R0, up to a zero cell. */
  function Puts(m: Machine): (o: Outcome)
    requires Valid(m)
    ensures Valid(o.m)
    ensures o.m.(output := m.output) == m
    ensures o.m.output == m.output + PutsFrom(m.mem, m.reg[R_R0]).0
    ensures o.fault == if PutsFrom(m.mem, m.reg[R_R0]).1 then Some(BadAddress(0xFFFF)) else None
  {
    var walk := PutsFrom(m.mem, m.reg[R_R0]);
    Outcome(m.(output := m.output + walk.0), if walk.1 then Some(BadAddress(0xFFFF)) else None)
  }

  /** `(char)getchar()` on a signed-char target: EOF becomes the byte 0xFF. */
  function CharByte(c: int): (b: Byte)
    requires EOF <= c < 0x100
    ensures c >= 0 ==> b == c
    ensures c == EOF ==> b == 0xFF
    ensures b == c % 0x100
  {
    if c == EOF then 0xFF else c
  }

  /** TRAP IN (its own part): writes the prompt, reads one byte, echoes it, and
      puts `(uint16_t)ch` in R0, where `ch` is a signed `char`: bytes from 0x80
      up are sign-extended. */
  function In(m: Machine): (r: Machine)
    requires Valid(m)
    ensures Valid(r)
    ensures r.mem == m.mem && r.running == m.running
    ensures forall i :: 0 <= i < R_COUNT && i != R_R0 ==> r.reg[i] == m.reg[i]
    ensures var ch := CharByte(GetChar(m.input).0);
      r.input == GetChar(m.input).1 &&
      r.output == m.output + PROMPT + [ch] &&
      r.reg[R_R0] == SignExtend(ch, 8)
  {
    var (c, rest) := GetChar(m.input);
    var ch := CharByte(c);
    m.(reg := m.reg[R_R0 := SignExtend(ch, 8)],
       input := rest,
       output := m.output + PROMPT + [ch])
  }

  /** The two bytes `trap_putsp` writes for `cell`: `(char)cell & 0xf`, the low
      nibble, then `(char)cell >> 8`, the sign of the low byte spread over a
      byte (0x00, or 0xFF when bit 7 is set). */
  function PutspBytes(cell: Word): (bytes: seq<Byte>)
    ensures |bytes| == 2
    ensures bytes[0] == BitAnd(cell, 0xF)
    ensures bytes[1] == if Bit(cell, 7) then 0xFF else 0x00
  {
    BitAndLowMask(cell, 4);
    assert Pow2(4) == 0x10;
    LowByteSign(cell);
    [cell % 0x10, if LowByte(cell) >= 0x80 then 0xFF else 0x00]
  }

  /** TRAP PUTSP: writes the two bytes above for the single cell at R0. */
  function Putsp(m: Machine): (o: Outcome)
    requires Valid(m)
    ensures Valid(o.m)
    ensures InMemory(m.reg[R_R0]) ==>
      o.fault == None && o.m.(output := m.output) == m &&
      o.m.output == m.output + PutspBytes(m.mem[m.reg[R_R0]])
    ensures !InMemory(m.reg[R_R0]) ==> o == Outcome(m, Some(BadAddress(m.reg[R_R0])))
  {
    var a := m.reg[R_R0];
    if InMemory(a) then Outcome(m.(output := m.output + PutspBytes(m.mem[a])), None)
    else Outcome(m, Some(BadAddress(a)))
  }

  /** TRAP HALT: writes "HALT\n" and clears `running`. */
  function Halt(m: Machine): (r: Machine)
    requires Valid(m)
    ensures Valid(r) && !r.running
    ensures r.(output := m.output, running := m.running) == m
    ensures r.output == m.output + HALT_TEXT
  {
    m.(output := m.output + HALT_TEXT, running := false)
  }

  /** Vectors that end in `trap_halt`: HALT itself and every unknown vector. */
  predicate HaltsOn(vector: Word): (b: bool)
    ensures b <==> vector < TRAP_GETC || TRAP_PUTSP < vector
  {
    vector != TRAP_GETC && vector != TRAP_OUT && vector != TRAP_PUTS &&
    vector != TRAP_IN && vector != TRAP_PUTSP
  }

  /** `inst_trap`: dispatch on the low byte. TRAP IN has no `break`, so it goes
      on into PUTSP; HALT and unknown vectors halt. */
  function Trap(m: Machine, instr: Word): (o: Outcome)
    requires Valid(m)
    ensures Valid(o.m)
    ensures o.m.mem == m.mem
    ensures forall i :: 0 <= i < R_COUNT && i != R_R0 ==> o.m.reg[i] == m.reg[i]
    ensures o.m.running <==> m.running && !HaltsOn(TrapVector(instr))
    ensures m.output <= o.m.output && IsSuffix(o.m.input, m.input)
  {
    var vector := TrapVector(instr);
    if vector == TRAP_GETC then Outcome(GetC(m), None)
    else if vector == TRAP_OUT then Outcome(Out(m), None)
    else if vector == TRAP_PUTS then Puts(m)
    else if vector == TRAP_IN then Putsp(In(m))
    else if vector == TRAP_PUTSP then Putsp(m)
    else Outcome(Halt(m), None)
  }

  // ---------------------------------------------------------------------------
  // Memory-mapped I/O

  /** `mmr_read(a)`: reading KBSR polls the keyboard first: with a byte waiting,
      KBSR becomes 0x8000 and KBDR the byte (which is consumed); with none, KBSR
      becomes 0. Any other address is a plain read. */
  function MmrRead(m: Machine, a: Word): (r: (Machine, Word))
    requires Valid(m) && InMemory(a)
    ensures Valid(r.0) && r.1 == r.0.mem[a]
    ensures a != MMR_KBSR ==> r.0 == m
    ensures a == MMR_KBSR && m.input != [] ==>
      r.0.(mem := m.mem, input := m.input) == m && r.0.input == m.input[1..] &&
      r.0.mem[MMR_KBSR] == 0x8000 && r.0.mem[MMR_KBDR] == m.input[0] &&
      forall i :: 0 <= i < MEMORY_SIZE && i != MMR_KBSR && i != MMR_KBDR ==>
        r.0.mem[i] == m.mem[i]
    ensures a == MMR_KBSR && m.input == [] ==> StoresCell(m, r.0, MMR_KBSR, 0)
  {
    var polled :=
      if a != MMR_KBSR then m
      else if m.input != [] then
        m.(mem := m.mem[MMR_KBSR := 0x8000][MMR_KBDR := m.input[0]],
           input := m.input[1..])
      else m.(mem := m.mem[MMR_KBSR := 0]);
    (polled, polled.mem[a])
  }

  /** `mmr_write(a, d)`: a plain store (no device behind any address). */
  function MmrWrite(m: Machine, a: Word, d: Word): (r: Machine)
    requires Valid(m) && InMemory(a)
    ensures Valid(r) && StoresCell(m, r, a, d)
  {
    m.(mem := m.mem[a := d])
  }

  // ---------------------------------------------------------------------------
  // Fetch, dispatch, run

  /** Dispatch of a fetched instruction on its opcode; RTI and RES abort. */
  function Execute(m: Machine, instr: Word): (o: Outcome)
    requires Valid(m)
    ensures Valid(o.m)
  {
    var op := Opcode(instr);
    if op == OP_ADD then Outcome(Add(m, instr), None)
    else if op == OP_AND then Outcome(And(m, instr), None)
    else if op == OP_NOT then Outcome(Not(m, instr), None)
    else if op == OP_BR then Outcome(Br(m, instr), None)
    else if op == OP_JMP then Jmp(m, instr)
    else if op == OP_JSR then Outcome(Jsr(m, instr), None)
    else if op == OP_LD then Ld(m, instr)
    else if op == OP_LDI then Ldi(m, instr)
    else if op == OP_LDR then Ldr(m, instr)
    else if op == OP_LEA then Outcome(Lea(m, instr), None)
    else if op == OP_ST then St(m, instr)
    else if op == OP_STI then Sti(m, instr)
    else if op == OP_STR then Str(m, instr)
    else if op == OP_TRAP then Trap(m, instr)
    else Outcome(m, Some(IllegalOpcode(op)))
  }

  /** What no operation undoes: going from `m` to `r` never sets `running`
      again, never takes back output, only consumes input from the front, and
      keeps COND one-hot once it is. */
  predicate Keeps(m: Machine, r: Machine)
    requires Valid(m) && Valid(r)
  {
    (r.running ==> m.running) &&
    m.output <= r.output && IsSuffix(r.input, m.input) &&
    (CondOneHot(m) ==> CondOneHot(r))
  }

  /** Every instruction keeps what `Keeps` names. */
  lemma ExecuteKeeps(m: Machine, instr: Word)
    requires Valid(m)
    ensures Keeps(m, Execute(m, instr).m)
  {
    hide Add, And, Not, Br, Jmp, Jsr, Ld, Ldi, Ldr, Lea, St, Sti, Str, Trap, FlagOf, BitAnd, SignExtend;
  }

  /** The PC after the fetch increment (`reg[R_PC]++` wraps at 2^16). */
  function Fetched(m: Machine): (r: Machine)
    requires Valid(m)
    ensures Valid(r) && RegistersOnly(m, r, {R_PC})
    ensures r.reg[R_PC] == Add16(m.reg[R_PC], 1)
  {
    m.(reg := m.reg[R_PC := Add16(m.reg[R_PC], 1)])
  }

  /** One cycle of the dispatch loop: `mmr_read(reg[R_PC]++)`, then dispatch. */
  function Step(m: Machine): (o: Outcome)
    requires Valid(m)
    ensures Valid(o.m)
  {
    var pc := m.reg[R_PC];
    var next := Fetched(m);
    if !InMemory(pc) then Outcome(next, Some(BadAddress(pc)))
    else
      var (polled, instr) := MmrRead(next, pc);
      Execute(polled, instr)
  }

  /** The same for a whole cycle, the fetch included. */
  lemma StepKeeps(m: Machine)
    requires Valid(m)
    ensures Keeps(m, Step(m).m)
  {
    hide Execute;
    var pc := m.reg[R_PC];
    if InMemory(pc) {
      var (polled, instr) := MmrRead(Fetched(m), pc);
      ExecuteKeeps(polled, instr);
    }
  }

  /** `while (running)` with a budget of `fuel` cycles: stops when `running` is
      cleared, when a cycle faults, or when the budget is spent. */
  function Run(m: Machine, fuel: nat): (o: Outcome)
    requires Valid(m)
    ensures Valid(o.m)
    decreases fuel
  {
    if !m.running || fuel == 0 then Outcome(m, None)
    else
      var o := Step(m);
      if o.fault.Some? then o else Run(o.m, fuel - 1)
  }

  /** One turn of the loop: a running machine with budget left does one cycle
      `Step(m) == Outcome(next, fault)`, then stops on a fault or goes on from
      `next` with one cycle less. */
  lemma RunCycle(m: Machine, next: Machine, fault: Option<Fault>, fuel: nat)
    requires Valid(m) && m.running && fuel > 0 && Outcome(next, fault) == Step(m)
    ensures Valid(next)
    ensures fault.Some? ==> Run(m, fuel) == Outcome(next, fault)
    ensures fault.None? ==> Run(m, fuel) == Run(next, fuel - 1)
  {
    hide Step;
  }

  // ---------------------------------------------------------------------------
  // Loading images

  /** One image as `read_image_file` reads it on a little-endian host: the origin
      word and the program words as `fread` delivers them, before `swap16`. */
  datatype Image = Image(rawOrigin: Word, raw: seq<Word>)

  /** `UINT16_MAX - origin`: how many words `fread` is asked for. */
  function MaxRead(origin: Word): (n: nat)
    ensures origin + n == MEMORY_SIZE
  {
    MEMORY_SIZE - origin
  }

  /** How many words of the image land in memory. */
  function LoadCount(img: Image): (n: nat)
    ensures n <= |img.raw| && Swap16(img.rawOrigin) + n <= MEMORY_SIZE
    ensures n == |img.raw| || Swap16(img.rawOrigin) + n == MEMORY_SIZE
  {
    var limit := MaxRead(Swap16(img.rawOrigin));
    if |img.raw| < limit then |img.raw| else limit
  }

  /** Writes `swap16` of each word, one cell after the other, from `at` on. */
  function WriteSwapped(mem: seq<Word>, at: nat, words: seq<Word>): (r: seq<Word>)
    requires at + |words| <= |mem|
    ensures |r| == |mem|
    decreases |words|
  {
    if words == [] then mem
    else WriteSwapped(mem[at := Swap16(words[0])], at + 1, words[1..])
  }

  /** What `WriteSwapped` leaves in each cell. */
  lemma {:induction false} WriteSwappedCells(mem: seq<Word>, at: nat, words: seq<Word>, i: nat)
    requires at + |words| <= |mem| && i < |mem|
    ensures WriteSwapped(mem, at, words)[i] ==
      if at <= i < at + |words| then Swap16(words[i - at]) else mem[i]
    decreases |words|
  {
    if words != [] {
      WriteSwappedCells(mem[at := Swap16(words[0])], at + 1, words[1..], i);
    }
  }

  /** `read_image_file`: the memory after loading `img` over `mem`. */
  function LoadImage(mem: seq<Word>, img: Image): (r: seq<Word>)
    requires |mem| == MEMORY_SIZE
    ensures |r| == MEMORY_SIZE
  {
    WriteSwapped(mem, Swap16(img.rawOrigin), img.raw[..LoadCount(img)])
  }

  /** The load rule: with `origin` the swapped origin word, cell `origin + k` holds
      `swap16` of word `k` for every `k` below `min(|raw|, UINT16_MAX - origin)`,
      and every other cell keeps its value. */
  lemma LoadImageCells(mem: seq<Word>, img: Image, i: nat)
    requires |mem| == MEMORY_SIZE && i < MEMORY_SIZE
    ensures var origin := Swap16(img.rawOrigin);
      LoadImage(mem, img)[i] ==
        if origin <= i < origin + LoadCount(img) then Swap16(img.raw[i - origin]) else mem[i]
  {
    WriteSwappedCells(mem, Swap16(img.rawOrigin), img.raw[..LoadCount(img)], i);
  }

  /** The loop of `main` over the image arguments, in order: the last image is
      loaded last. */
  function LoadAll(mem: seq<Word>, images: seq<Image>): (r: seq<Word>)
    requires |mem| == MEMORY_SIZE
    ensures |r| == MEMORY_SIZE
    decreases |images|
  {
    if images == [] then mem
    else LoadImage(LoadAll(mem, images[..|images| - 1]), images[|images| - 1])
  }

  /** The globals before `main` runs: memory and registers zero, `running` set,
      nothing written yet. */
  function Initial(input: seq<Byte>): (m: Machine)
    ensures Valid(m) && m.running && m.output == [] && m.input == input
    ensures forall i :: 0 <= i < MEMORY_SIZE ==> m.mem[i] == 0
    ensures forall i :: 0 <= i < R_COUNT ==> m.reg[i] == 0
  {
    Machine(seq(MEMORY_SIZE, _ => 0), seq(R_COUNT, _ => 0), true, input, [])
  }

  /** The machine `main` hands to its dispatch loop: the images loaded in argument
      order over the zeroed memory, PC at 0x3000; COND is still 0. */
  function Boot(images: seq<Image>, input: seq<Byte>): (m: Machine)
    ensures Valid(m) && m.running && m.output == [] && m.input == input
    ensures m.reg[R_PC] == PC_START
    ensures forall i :: 0 <= i < R_COUNT && i != R_PC ==> m.reg[i] == 0
  {
    var init := Initial(input);
    init.(mem := LoadAll(init.mem, images), reg := init.reg[R_PC := PC_START])
  }
}
