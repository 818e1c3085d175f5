/** The LC-3 virtual machine of `main.c` as it runs: the global arrays `memory`
    and `reg` and the flag `running` live in one object, each handler updates
    them in place, and the dispatch loop drives them. Standard input is the
    sequence of bytes still to be read and standard output the bytes written so
    far. Every method is proved to do exactly what the matching function of
    module Isa says, through `State()`. */
module Vm {
  import opened Bits
  import opened Isa

  class Lc3 {
    /** `uint16_t memory[UINT16_MAX]`. */
    const memory: array<Word>
    /** `uint16_t reg[R_COUNT]`. */
    const reg: array<Word>
    /** `int running`. */
    var running: bool
    /** What `getchar` has still to deliver. */
    var input: seq<Byte>
    /** What `putc`, `printf` and `puts` have written. */
    var output: seq<Byte>

    /** The arrays have the sizes the C program declares. */
    ghost predicate Valid()
      reads this
    {
      memory.Length == MEMORY_SIZE && reg.Length == R_COUNT && memory != reg
    }

    /** The machine as a value. */
    function State(): (m: Machine)
      reads this, memory, reg
      ensures Valid() ==> Isa.Valid(m)
    {
      Machine(memory[..], reg[..], running, input, output)
    }

    /** The globals as the C program starts: every cell and register zero,
        `running` set; `input` is all standard input will deliver. */
    constructor(input: seq<Byte>)
      ensures Valid() && fresh(memory) && fresh(reg)
      ensures State() == Initial(input)
    {
      memory := new Word[MEMORY_SIZE](_ => 0);
      reg := new Word[R_COUNT](_ => 0);
      running := true;
      this.input := input;
      output := [];
    }

    // -------------------------------------------------------------------------
    // Flags

    /** `update_flag(d)`. */
    method UpdateFlag(d: Word)
      requires Valid()
      modifies reg
      ensures Valid() && State() == Isa.UpdateFlag(old(State()), d)
    {
      if d == 0 {
        reg[R_COND] := FL_ZRO;
      } else if d / 0x8000 != 0 {
        reg[R_COND] := FL_NEG;
      } else {
        reg[R_COND] := FL_POS;
      }
    }

    // -------------------------------------------------------------------------
    // Instruction handlers

    /** `inst_add`. */
    method Add(instr: Word)
      requires Valid()
      modifies reg
      ensures Valid() && State() == Isa.Add(old(State()), instr)
    {
      var dr := Field9(instr);
      var sr1 := reg[Field6(instr)];
      if Flag5(instr) {
        reg[dr] := Add16(sr1, Imm5(instr));
      } else {
        reg[dr] := Add16(sr1, reg[Field0(instr)]);
      }
      UpdateFlag(reg[dr]);
    }

    /** `inst_and`. */
    method And(instr: Word)
      requires Valid()
      modifies reg
      ensures Valid() && State() == Isa.And(old(State()), instr)
    {
      var dr := Field9(instr);
      var sr1 := reg[Field6(instr)];
      if Flag5(instr) {
        reg[dr] := BitAnd(sr1, Imm5(instr));
      } else {
        reg[dr] := BitAnd(sr1, reg[Field0(instr)]);
      }
      UpdateFlag(reg[dr]);
    }

    /** `inst_not`. */
    method Not(instr: Word)
      requires Valid()
      modifies reg
      ensures Valid() && State() == Isa.Not(old(State()), instr)
    {
      var dr := Field9(instr);
      reg[dr] := Not16(reg[Field6(instr)]);
      UpdateFlag(reg[dr]);
    }

    /** `inst_br`. */
    method Br(instr: Word)
      requires Valid()
      modifies reg
      ensures Valid() && State() == Isa.Br(old(State()), instr)
    {
      if BitAnd(Field9(instr), reg[R_COND]) != 0 {
        reg[R_PC] := Add16(reg[R_PC], Offset9(instr));
      }
    }

    /** `inst_jmp`: a base index past the register file is a fault. */
    method Jmp(instr: Word) returns (fault: Option<Fault>)
      requires Valid()
      modifies reg
      ensures Valid() && Outcome(State(), fault) == Isa.Jmp(old(State()), instr)
    {
      var base := JmpBase(instr);
      if base >= R_COUNT {
        return Some(BadRegister(base));
      }
      reg[R_PC] := reg[base];
      fault := None;
    }

    /** `inst_jsr`: R7 is written before the base register is read. */
    method Jsr(instr: Word)
      requires Valid()
      modifies reg
      ensures Valid() && State() == Isa.Jsr(old(State()), instr)
    {
      reg[R_R7] := reg[R_PC];
      if Flag11(instr) {
        reg[R_PC] := Add16(reg[R_PC], Offset11(instr));
      } else {
        reg[R_PC] := reg[Field6(instr)];
      }
    }

    /** `inst_ld`. */
    method Ld(instr: Word) returns (fault: Option<Fault>)
      requires Valid()
      modifies reg
      ensures Valid() && Outcome(State(), fault) == Isa.Ld(old(State()), instr)
    {
      var dr := Field9(instr);
      var a := Add16(reg[R_PC], Offset9(instr));
      if !InMemory(a) {
        return Some(BadAddress(a));
      }
      reg[dr] := memory[a];
      UpdateFlag(reg[dr]);
      fault := None;
    }

    /** `inst_ldi`. */
    method Ldi(instr: Word) returns (fault: Option<Fault>)
      requires Valid()
      modifies reg
      ensures Valid() && Outcome(State(), fault) == Isa.Ldi(old(State()), instr)
    {
      var dr := Field9(instr);
      var a := Add16(reg[R_PC], Offset9(instr));
      if !InMemory(a) {
        return Some(BadAddress(a));
      }
      var target := memory[a];
      if !InMemory(target) {
        return Some(BadAddress(target));
      }
      reg[dr] := memory[target];
      UpdateFlag(reg[dr]);
      fault := None;
    }

    /** `inst_ldr`. */
    method Ldr(instr: Word) returns (fault: Option<Fault>)
      requires Valid()
      modifies reg
      ensures Valid() && Outcome(State(), fault) == Isa.Ldr(old(State()), instr)
    {
      var dr := Field9(instr);
      var a := Add16(reg[Field6(instr)], Offset6(instr));
      if !InMemory(a) {
        return Some(BadAddress(a));
      }
      reg[dr] := memory[a];
      UpdateFlag(reg[dr]);
      fault := None;
    }

    /** `inst_lea`. */
    method Lea(instr: Word)
      requires Valid()
      modifies reg
      ensures Valid() && State() == Isa.Lea(old(State()), instr)
    {
      var dr := Field9(instr);
      reg[dr] := Add16(reg[R_PC], Offset9(instr));
      UpdateFlag(reg[dr]);
    }

    /** `inst_st`. */
    method St(instr: Word) returns (fault: Option<Fault>)
      requires Valid()
      modifies memory
      ensures Valid() && Outcome(State(), fault) == Isa.St(old(State()), instr)
    {
      var a := Add16(reg[R_PC], Offset9(instr));
      if !InMemory(a) {
        return Some(BadAddress(a));
      }
      memory[a] := reg[Field9(instr)];
      fault := None;
    }

    /** `inst_sti`. */
    method Sti(instr: Word) returns (fault: Option<Fault>)
      requires Valid()
      modifies memory
      ensures Valid() && Outcome(State(), fault) == Isa.Sti(old(State()), instr)
    {
      var a := Add16(reg[R_PC], Offset9(instr));
      if !InMemory(a) {
        return Some(BadAddress(a));
      }
      var target := memory[a];
      if !InMemory(target) {
        return Some(BadAddress(target));
      }
      memory[target] := reg[Field9(instr)];
      fault := None;
    }

    /** `inst_str`. */
    method Str(instr: Word) returns (fault: Option<Fault>)
      requires Valid()
      modifies memory
      ensures Valid() && Outcome(State(), fault) == Isa.Str(old(State()), instr)
    {
      var a := Add16(reg[Field6(instr)], Offset6(instr));
      if !InMemory(a) {
        return Some(BadAddress(a));
      }
      memory[a] := reg[Field9(instr)];
      fault := None;
    }

    // -------------------------------------------------------------------------
    // Trap routines

    /** `trap_getc`. */
    method GetC()
      requires Valid()
      modifies this, reg
      ensures Valid() && State() == Isa.GetC(old(State()))
    {
      var (c, rest) := GetChar(input);
      input := rest;
      reg[R_R0] := CharCode(c);
    }

    /** `trap_out`. */
    method Out()
      requires Valid()
      modifies this
      ensures Valid() && State() == Isa.Out(old(State()))
    {
      output := output + [LowByte(reg[R_R0])];
    }

    /** `trap_puts`: the `while (*c)` walk from `memory + R0`, one byte per cell. */
    method Puts() returns (fault: Option<Fault>)
      requires Valid()
      modifies this
      ensures Valid() && Outcome(State(), fault) == Isa.Puts(old(State()))
    {
      var c: nat := reg[R_R0];
      while c < memory.Length && memory[c] != 0
        invariant reg[R_R0] <= c <= memory.Length
        invariant running == old(running) && input == old(input)
        invariant output + PutsFrom(memory[..], c).0 ==
          old(output) + PutsFrom(memory[..], reg[R_R0]).0
        invariant PutsFrom(memory[..], c).1 == PutsFrom(memory[..], reg[R_R0]).1
        decreases memory.Length - c
      {
        output := output + [LowByte(memory[c])];
        c := c + 1;
      }
      fault := if c == memory.Length then Some(BadAddress(0xFFFF)) else None;
    }

    /** `trap_in`, up to its fall-through into `trap_putsp`. */
    method In()
      requires Valid()
      modifies this, reg
      ensures Valid() && State() == Isa.In(old(State()))
    {
      output := output + PROMPT;
      var (c, rest) := GetChar(input);
      input := rest;
      var ch := CharByte(c);
      output := output + [ch];
      reg[R_R0] := SignExtend(ch, 8);
    }

    /** `trap_putsp`. */
    method Putsp() returns (fault: Option<Fault>)
      requires Valid()
      modifies this
      ensures Valid() && Outcome(State(), fault) == Isa.Putsp(old(State()))
    {
      var a := reg[R_R0];
      if !InMemory(a) {
        return Some(BadAddress(a));
      }
      output := output + PutspBytes(memory[a]);
      fault := None;
    }

    /** `trap_halt`. */
    method Halt()
      requires Valid()
      modifies this
      ensures Valid() && State() == Isa.Halt(old(State()))
    {
      output := output + HALT_TEXT;
      running := false;
    }

    /** `inst_trap`: TRAP IN goes on into TRAP PUTSP; every vector other than
        the five routines halts. */
    method Trap(instr: Word) returns (fault: Option<Fault>)
      requires Valid()
      modifies this, reg
      ensures Valid() && Outcome(State(), fault) == Isa.Trap(old(State()), instr)
    {
      var vector := TrapVector(instr);
      fault := None;
      if vector == TRAP_GETC {
        GetC();
      } else if vector == TRAP_OUT {
        Out();
      } else if vector == TRAP_PUTS {
        fault := Puts();
      } else if vector == TRAP_IN {
        In();
        fault := Putsp();
      } else if vector == TRAP_PUTSP {
        fault := Putsp();
      } else {
        Halt();
      }
    }

    // -------------------------------------------------------------------------
    // Memory-mapped I/O

    /** `mmr_read(a)`; `check_key()` is "a byte is waiting on standard input". */
    method MmrRead(a: Word) returns (v: Word)
      requires Valid() && InMemory(a)
      modifies this, memory
      ensures Valid() && (State(), v) == Isa.MmrRead(old(State()), a)
    {
      if a == MMR_KBSR {
        if input != [] {
          memory[MMR_KBSR] := 0x8000;
          memory[MMR_KBDR] := input[0];
          input := input[1..];
        } else {
          memory[MMR_KBSR] := 0;
        }
      }
      v := memory[a];
    }

    /** `mmr_write(a, d)`. */
    method MmrWrite(a: Word, d: Word)
      requires Valid() && InMemory(a)
      modifies memory
      ensures Valid() && State() == Isa.MmrWrite(old(State()), a, d)
    {
      memory[a] := d;
    }

    // -------------------------------------------------------------------------
    // Fetch, dispatch, run

    /** The `switch (op)` of the dispatch loop. */
    method Execute(instr: Word) returns (fault: Option<Fault>)
      requires Valid()
      modifies this, memory, reg
      ensures Valid() && Outcome(State(), fault) == Isa.Execute(old(State()), instr)
    {
      var op := Opcode(instr);
      fault := None;
      if op == OP_ADD {
        Add(instr);
      } else if op == OP_AND {
        And(instr);
      } else if op == OP_NOT {
        Not(instr);
      } else if op == OP_BR {
        Br(instr);
      } else if op == OP_JMP {
        fault := Jmp(instr);
      } else if op == OP_JSR {
        Jsr(instr);
      } else if op == OP_LD {
        fault := Ld(instr);
      } else if op == OP_LDI {
        fault := Ldi(instr);
      } else if op == OP_LDR {
        fault := Ldr(instr);
      } else if op == OP_LEA {
        Lea(instr);
      } else if op == OP_ST {
        fault := St(instr);
      } else if op == OP_STI {
        fault := Sti(instr);
      } else if op == OP_STR {
        fault := Str(instr);
      } else if op == OP_TRAP {
        fault := Trap(instr);
      } else {
        fault := Some(IllegalOpcode(op));
      }
    }

    /** One cycle: `inst = mmr_read(reg[R_PC]++)`, then dispatch. */
    method Step() returns (fault: Option<Fault>)
      requires Valid()
      modifies this, memory, reg
      ensures Valid() && Outcome(State(), fault) == Isa.Step(old(State()))
    {
      var pc := reg[R_PC];
      reg[R_PC] := Add16(pc, 1);
      if !InMemory(pc) {
        return Some(BadAddress(pc));
      }
      var instr := MmrRead(pc);
      fault := Execute(instr);
    }

    /** `while (running)`, for at most `fuel` cycles. */
    method Run(fuel: nat) returns (fault: Option<Fault>)
      requires Valid()
      modifies this, memory, reg
      ensures Valid() && Outcome(State(), fault) == Isa.Run(old(State()), fuel)
    {
      hide Isa.Step;
      var left := fuel;
      fault := None;
      while running && left > 0
        invariant Valid() && fault == None
        invariant Isa.Run(State(), left) == Isa.Run(old(State()), fuel)
        decreases left
      {
        ghost var before := State();
        fault := Step();
        RunCycle(before, State(), fault, left);
        if fault.Some? {
          return;
        }
        left := left - 1;
      }
    }

    // -------------------------------------------------------------------------
    // Loading images

    /** `read_image_file`: `fread` copies up to `UINT16_MAX - origin` words to
        `memory + origin`; the `p` loop then swaps each of them in place. */
    method ReadImageFile(img: Image)
      requires Valid()
      modifies memory
      ensures Valid() && State() == old(State()).(mem := LoadImage(old(memory[..]), img))
    {
      var origin := Swap16(img.rawOrigin);
      var maxRead := MaxRead(origin);
      var read: nat := if |img.raw| < maxRead then |img.raw| else maxRead;
      ghost var count := read;
      var k := 0;
      while k < read
        invariant 0 <= k <= read
        invariant forall i :: 0 <= i < memory.Length ==>
          memory[i] == if origin <= i < origin + k then img.raw[i - origin] else old(memory[i])
      {
        memory[origin + k] := img.raw[k];
        k := k + 1;
      }
      var p := origin;
      while read > 0
        invariant count <= |img.raw| && origin + count <= MEMORY_SIZE
        invariant origin <= p && p + read == origin + count
        invariant forall i :: 0 <= i < memory.Length ==>
          memory[i] ==
            if origin <= i < p then Swap16(img.raw[i - origin])
            else if p <= i < origin + count then img.raw[i - origin]
            else old(memory[i])
      {
        memory[p] := Swap16(memory[p]);
        p := p + 1;
        read := read - 1;
      }
      assert count == LoadCount(img);
      forall i | 0 <= i < MEMORY_SIZE
        ensures memory[i] == LoadImage(old(memory[..]), img)[i]
      {
        LoadImageCells(old(memory[..]), img, i);
      }
    }
  }

  /** `main` once its arguments are checked and every image file opened: the
      images are loaded in argument order, PC is set to 0x3000 and the dispatch
      loop runs for at most `fuel` cycles. */
  method Launch(images: seq<Image>, input: seq<Byte>, fuel: nat) returns (vm: Lc3, fault: Option<Fault>)
    ensures vm.Valid() && Outcome(vm.State(), fault) == Run(Boot(images, input), fuel)
  {
    vm := new Lc3(input);
    var j := 0;
    while j < |images|
      invariant 0 <= j <= |images|
      invariant vm.Valid() && fresh(vm.memory) && fresh(vm.reg)
      invariant vm.State() == Initial(input).(mem := LoadAll(Initial(input).mem, images[..j]))
    {
      vm.ReadImageFile(images[j]);
      assert images[..j + 1][..j] == images[..j];
      j := j + 1;
    }
    assert images[..j] == images;
    vm.reg[R_PC] := PC_START;
    fault := vm.Run(fuel);
  }
}
