/** Properties of the machine in module Isa that relate several operations or
    whole runs: how runs compose, what a run never undoes, how the fetch shapes
    what an instruction sees, where the loaded images end up, and a few worked
    programs. */
module Properties {
  import opened Bits
  import opened Isa

  // ---------------------------------------------------------------------------
  // Runs

  /** Running `a + b` cycles is running `a` cycles and then, unless that
      faulted, `b` more from where it stopped. */
  lemma {:induction false} RunSplit(m: Machine, a: nat, b: nat)
    requires Valid(m)
    ensures var o := Run(m, a);
      Run(m, a + b) == if o.fault.Some? then o else Run(o.m, b)
    decreases a
  {
    hide Step;
    if m.running && a > 0 {
      var o := Step(m);
      if o.fault.None? {
        RunSplit(o.m, a - 1, b);
      }
    }
  }

  /** Once `running` is clear (HALT or an unknown trap vector), more cycles
      change nothing. */
  lemma RunStaysHalted(m: Machine, k: nat, more: nat)
    requires Valid(m) && !Run(m, k).m.running
    ensures Run(m, k + more) == Run(m, k)
  {
    RunSplit(m, k, more);
  }

  /** Chaining two suffix relations. */
  lemma SuffixTrans(s: seq<Byte>, t: seq<Byte>, u: seq<Byte>)
    requires IsSuffix(s, t) && IsSuffix(t, u)
    ensures IsSuffix(s, u)
  {
    assert t[|t| - |s|..] == u[|u| - |t|..][|t| - |s|..];
  }

  /** `Keeps` chains: what two operations in a row do not undo, neither does
      the pair. */
  lemma KeepsTrans(m: Machine, r: Machine, s: Machine)
    requires Valid(m) && Valid(r) && Valid(s) && Keeps(m, r) && Keeps(r, s)
    ensures Keeps(m, s)
  {
    SuffixTrans(s.input, r.input, m.input);
  }

  /** A run never sets `running` again, never takes back output, only consumes
      input from the front, and keeps COND one-hot once it is. */
  lemma {:induction false} RunKeeps(m: Machine, fuel: nat)
    requires Valid(m)
    ensures Keeps(m, Run(m, fuel).m)
    decreases fuel
  {
    hide Step;
    if m.running && fuel > 0 {
      var o := Step(m);
      StepKeeps(m);
      if o.fault.None? {
        RunKeeps(o.m, fuel - 1);
        KeepsTrans(m, o.m, Run(o.m, fuel - 1).m);
      }
    }
  }

  // ---------------------------------------------------------------------------
  // Fetch and dispatch

  /** A cycle increments PC (mod 2^16) before it dispatches, so the handler
      sees the incremented PC; only a fetch from KBSR polls the keyboard. */
  lemma StepFetches(m: Machine)
    requires Valid(m) && InMemory(m.reg[R_PC]) && m.reg[R_PC] != MMR_KBSR
    ensures Step(m) == Execute(Fetched(m), m.mem[m.reg[R_PC]])
    ensures Fetched(m).reg[R_PC] == (m.reg[R_PC] + 1) % 0x10000
  {
  }

  /** Fetching from KBSR polls the keyboard: with a key waiting, the fetched
      word is 0x8000, which is RTI, so the cycle aborts. */
  lemma FetchFromKbsrWithKey(m: Machine)
    requires Valid(m) && m.reg[R_PC] == MMR_KBSR && m.input != []
    ensures Step(m) == Outcome(Fetched(m).(mem := m.mem[MMR_KBSR := 0x8000][MMR_KBDR := m.input[0]],
                                           input := m.input[1..]),
                               Some(IllegalOpcode(OP_RTI)))
  {
  }

  /** With no key waiting, the word fetched from KBSR is 0, a BR with an empty
      mask: the cycle only stores 0 in KBSR and increments PC. */
  lemma FetchFromKbsrWithoutKey(m: Machine)
    requires Valid(m) && m.reg[R_PC] == MMR_KBSR && m.input == []
    ensures Step(m) == Outcome(Fetched(m).(mem := m.mem[MMR_KBSR := 0]), None)
  {
  }

  /** RTI (8) and RES (13) stop the machine with an illegal-opcode fault and no
      change beyond the PC increment. */
  lemma ReservedOpcodesAbort(m: Machine, fuel: nat)
    requires Valid(m) && m.running && fuel > 0
    requires InMemory(m.reg[R_PC]) && m.reg[R_PC] != MMR_KBSR
    requires Opcode(m.mem[m.reg[R_PC]]) == OP_RTI || Opcode(m.mem[m.reg[R_PC]]) == OP_RES
    ensures Run(m, fuel) ==
      Outcome(Fetched(m), Some(IllegalOpcode(Opcode(m.mem[m.reg[R_PC]]))))
  {
    StepFetches(m);
  }

  /** An instruction aborts as illegal exactly when its opcode is RTI or RES;
      the other fourteen opcodes never do. */
  lemma ExecuteIllegalIff(m: Machine, instr: Word)
    requires Valid(m)
    ensures (Execute(m, instr).fault.Some? && Execute(m, instr).fault.value.IllegalOpcode?)
            <==> Opcode(instr) == OP_RTI || Opcode(instr) == OP_RES
  {
    hide Add, And, Not, Br, Jsr, Lea, GetC, Out, In, Halt, FlagOf, BitAnd, SignExtend;
  }

  /** A fetched LEA is dispatched to `Lea` on the incremented machine. */
  lemma StepLea(m: Machine)
    requires Valid(m) && InMemory(m.reg[R_PC]) && m.reg[R_PC] != MMR_KBSR
    requires Opcode(m.mem[m.reg[R_PC]]) == OP_LEA
    ensures Step(m) == Outcome(Lea(Fetched(m), m.mem[m.reg[R_PC]]), None)
  {
    hide Add, And, Not, Br, Jmp, Jsr, Ld, Ldi, Ldr, Lea, St, Sti, Str, Trap, Fetched;
    StepFetches(m);
  }

  /** LEA at address `pc` yields `pc + 1` plus its signed 9-bit offset, modulo
      2^16: the PC-relative base is the incremented PC. */
  lemma PcRelativeFromNextPc(m: Machine)
    requires Valid(m) && InMemory(m.reg[R_PC]) && m.reg[R_PC] != MMR_KBSR
    requires Opcode(m.mem[m.reg[R_PC]]) == OP_LEA
    ensures var instr, pc := m.mem[m.reg[R_PC]], m.reg[R_PC];
      Step(m).fault == None &&
      Step(m).m.reg[Field9(instr)] == (pc + 1 + FieldValue(instr % 0x200, 9)) % 0x10000
  {
    StepLea(m);
    hide Step, Execute, SignExtend, FlagOf;
    var instr := m.mem[m.reg[R_PC]];
    var next, f := Fetched(m).reg[R_PC], FieldValue(instr % 0x200, 9);
    Pow2Word();
    assert Pow2(9) == 0x200;
    SignExtendMod(instr % 0x200, 9);
    AddWrapped(next, f);
  }

  // ---------------------------------------------------------------------------
  // Handlers in signed terms

  /** ADD with an immediate adds the two's-complement value of imm5, modulo 2^16. */
  lemma AddImmediate(m: Machine, instr: Word)
    requires Valid(m) && Flag5(instr)
    ensures Add(m, instr).reg[Field9(instr)] ==
      (m.reg[Field6(instr)] + FieldValue(instr % 0x20, 5)) % 0x10000
  {
    hide SignExtend, FlagOf;
    assert Pow2(5) == 0x20;
    SignExtendMod(instr % 0x20, 5);
    AddWrapped(m.reg[Field6(instr)], FieldValue(instr % 0x20, 5));
  }

  /** A taken branch moves PC by the two's-complement value of offset9, modulo
      2^16. */
  lemma BranchTarget(m: Machine, instr: Word)
    requires Valid(m) && BitAnd(Field9(instr), m.reg[R_COND]) != 0
    ensures Br(m, instr).reg[R_PC] == (m.reg[R_PC] + FieldValue(instr % 0x200, 9)) % 0x10000
  {
    hide SignExtend;
    Pow2Word();
    assert Pow2(9) == 0x200;
    SignExtendMod(instr % 0x200, 9);
    AddWrapped(m.reg[R_PC], FieldValue(instr % 0x200, 9));
  }

  /** BRnzp (mask 7) is taken whenever COND is one-hot; a zero mask never is. */
  lemma BranchAlwaysNever(m: Machine, instr: Word)
    requires Valid(m)
    ensures Field9(instr) == 7 && CondOneHot(m) ==> BitAnd(Field9(instr), m.reg[R_COND]) != 0
    ensures Field9(instr) == 0 ==> Br(m, instr) == m
  {
    if Field9(instr) == 7 && CondOneHot(m) {
      var c := m.reg[R_COND];
      assert BitAnd(7, c) != 0 by {
        if c == FL_POS {
          assert BitAnd(7, 1) == 1;
        } else if c == FL_ZRO {
          assert BitAnd(7, 2) == 2;
        } else {
          assert BitAnd(7, 4) == 4;
        }
      }
    }
  }

  /** With COND one-hot, BR is taken exactly when the mask names the current
      condition: n (mask bit 2) for NEG, z (bit 1) for ZRO, p (bit 0) for POS. */
  lemma BranchOnFlag(m: Machine, instr: Word)
    requires Valid(m) && CondOneHot(m)
    ensures var mask, c := Field9(instr), m.reg[R_COND];
      BitAnd(mask, c) != 0 <==>
        (c == FL_NEG && Bit(mask, 2)) || (c == FL_ZRO && Bit(mask, 1)) || (c == FL_POS && Bit(mask, 0))
  {
    var mask, c := Field9(instr), m.reg[R_COND];
    var k := if c == FL_POS then 0 else if c == FL_ZRO then 1 else 2;
    assert Pow2(k) == c;
    BitAndPow2(mask, k);
  }

  // ---------------------------------------------------------------------------
  // Traps

  /** TRAP IN at the end of input: the echoed byte is 0xFF, R0 becomes 0xFFFF,
      and the fall-through into PUTSP then reads past the end of memory. */
  lemma InAtEndOfInput(m: Machine, instr: Word)
    requires Valid(m) && m.input == [] && TrapVector(instr) == TRAP_IN
    ensures In(m).reg[R_R0] == 0xFFFF
    ensures In(m).output == m.output + PROMPT + [0xFF]
    ensures Trap(m, instr).fault == Some(BadAddress(0xFFFF))
  {
    Pow2Word();
    assert Pow2(8) == 0x100;
    assert Bit(0xFF, 7);
  }

  /** TRAP PUTSP on the packed cell "Ai" (0x6941) writes the bytes 0x01 and
      0x00, not 'A' and 'i'. */
  lemma PutspPackedExample()
    ensures PutspBytes(0x6941) == [0x01, 0x00]
  {
    Pow2Word();
    BitAndLowMask(0x6941, 4);
    assert Pow2(4) == 0x10;
  }

  /** PUTS writes the low byte of each cell up to the first zero cell. */
  lemma {:induction false} PutsString(mem: seq<Word>, a: nat, k: nat)
    requires a + k < |mem| && mem[a + k] == 0
    requires forall j :: a <= j < a + k ==> mem[j] != 0
    ensures var r := PutsFrom(mem, a);
      !r.1 && |r.0| == k && forall j :: 0 <= j < k ==> r.0[j] == LowByte(mem[a + j])
    decreases k
  {
    if k > 0 {
      PutsString(mem, a + 1, k - 1);
    }
  }

  /** With no zero cell from `a` to the end, PUTS writes every remaining cell and
      then runs past the end of memory. */
  lemma {:induction false} PutsRunsOff(mem: seq<Word>, a: nat)
    requires a <= |mem|
    requires forall j :: a <= j < |mem| ==> mem[j] != 0
    ensures PutsFrom(mem, a).1 && |PutsFrom(mem, a).0| == |mem| - a
    ensures forall j :: 0 <= j < |mem| - a ==> PutsFrom(mem, a).0[j] == LowByte(mem[a + j])
    decreases |mem| - a
  {
    if a < |mem| {
      PutsRunsOff(mem, a + 1);
    }
  }

  /** PUTS runs past the last cell exactly when no cell from `a` on is zero. */
  lemma {:induction false} PutsRunsOffIff(mem: seq<Word>, a: nat)
    requires a <= |mem|
    ensures PutsFrom(mem, a).1 <==> forall j :: a <= j < |mem| ==> mem[j] != 0
    decreases |mem| - a
  {
    if a < |mem| && mem[a] != 0 {
      PutsRunsOffIff(mem, a + 1);
    }
  }

  // ---------------------------------------------------------------------------
  // Keyboard

  /** Polling KBSR with one byte waiting reports it once: the first read sees
      0x8000 and leaves the byte in KBDR, the second sees 0. */
  lemma KeyboardPollOnce(m: Machine, key: Byte)
    requires Valid(m) && m.input == [key]
    ensures var (m1, s1) := MmrRead(m, MMR_KBSR);
      var (m2, s2) := MmrRead(m1, MMR_KBSR);
      var (m3, d) := MmrRead(m2, MMR_KBDR);
      s1 == 0x8000 && s2 == 0 && d == key && m3.input == []
  {
  }

  // ---------------------------------------------------------------------------
  // Loading

  /** Whether loading `img` writes cell `i`. */
  predicate Covers(img: Image, i: nat)
  {
    Swap16(img.rawOrigin) <= i < Swap16(img.rawOrigin) + LoadCount(img)
  }

  /** Cells no image covers keep their value through the whole load loop. */
  lemma {:induction false} LoadAllUncovered(mem: seq<Word>, images: seq<Image>, i: nat)
    requires |mem| == MEMORY_SIZE && i < MEMORY_SIZE
    requires forall k :: 0 <= k < |images| ==> !Covers(images[k], i)
    ensures LoadAll(mem, images)[i] == mem[i]
    decreases |images|
  {
    if images != [] {
      var last := images[|images| - 1];
      LoadAllUncovered(mem, images[..|images| - 1], i);
      LoadImageCells(LoadAll(mem, images[..|images| - 1]), last, i);
    }
  }

  /** Where images overlap, the one loaded last wins. */
  lemma LoadAllLastWins(mem: seq<Word>, images: seq<Image>, i: nat)
    requires |mem| == MEMORY_SIZE && i < MEMORY_SIZE
    requires images != [] && Covers(images[|images| - 1], i)
    ensures var last := images[|images| - 1];
      LoadAll(mem, images)[i] == Swap16(last.raw[i - Swap16(last.rawOrigin)])
  {
    LoadImageCells(LoadAll(mem, images[..|images| - 1]), images[|images| - 1], i);
  }

  /** Over the whole load loop, a cell takes its word from the last image that
      covers it, whatever images follow without covering it. */
  lemma {:induction false} LoadAllLastCovering(mem: seq<Word>, images: seq<Image>, k: nat, i: nat)
    requires |mem| == MEMORY_SIZE && i < MEMORY_SIZE
    requires k < |images| && Covers(images[k], i)
    requires forall j :: k < j < |images| ==> !Covers(images[j], i)
    ensures LoadAll(mem, images)[i] == Swap16(images[k].raw[i - Swap16(images[k].rawOrigin)])
    decreases |images|
  {
    if k == |images| - 1 {
      LoadAllLastWins(mem, images, i);
    } else {
      var prefix := images[..|images| - 1];
      LoadImageCells(LoadAll(mem, prefix), images[|images| - 1], i);
      LoadAllLastCovering(mem, prefix, k, i);
    }
  }

  /** In the booted machine every cell no image covers is zero. */
  lemma BootUncoveredZero(images: seq<Image>, input: seq<Byte>, i: nat)
    requires i < MEMORY_SIZE
    requires forall k :: 0 <= k < |images| ==> !Covers(images[k], i)
    ensures Boot(images, input).mem[i] == 0
  {
    LoadAllUncovered(Initial(input).mem, images, i);
  }

  // ---------------------------------------------------------------------------
  // A worked program

  /** The image holding `AND R0, R0, #0` and `ADD R0, R0, #5` at 0x3000, as
      the file stores it (big-endian words, so byte-swapped on the host). */
  const SAMPLE: Image := Image(0x0030, [0x2050, 0x2510])

  /** Booting with the sample image puts its two instructions at 0x3000. */
  lemma SampleLoaded(input: seq<Byte>)
    ensures Boot([SAMPLE], input).mem[0x3000] == 0x5020
    ensures Boot([SAMPLE], input).mem[0x3001] == 0x1025
  {
    var zeros := Initial(input).mem;
    assert [SAMPLE][..0] == [];
    assert LoadAll(zeros, [SAMPLE]) == LoadImage(LoadAll(zeros, []), SAMPLE);
    assert Swap16(0x0030) == 0x3000;
    assert LoadCount(SAMPLE) == 2;
    assert Swap16(0x2050) == 0x5020 && Swap16(0x2510) == 0x1025;
    LoadImageCells(zeros, SAMPLE, 0x3000);
    LoadImageCells(zeros, SAMPLE, 0x3001);
  }

  /** `AND R0, R0, #0` clears R0 and sets COND to zero. */
  lemma SampleFirstCycle(m: Machine)
    requires Valid(m) && m.running && m.reg[R_PC] == 0x3000 && m.mem[0x3000] == 0x5020
    ensures var o := Step(m);
      o.fault == None && o.m.running && o.m.mem == m.mem &&
      o.m.reg[R_R0] == 0 && o.m.reg[R_COND] == FL_ZRO && o.m.reg[R_PC] == 0x3001
  {
    StepFetches(m);
    assert Pow2(4) == 0x10;
    assert Imm5(0x5020) == 0;
  }

  /** `ADD R0, R0, #5` on a cleared R0 leaves 5 and COND positive. */
  lemma SampleSecondCycle(m: Machine)
    requires Valid(m) && m.running && m.reg[R_PC] == 0x3001 && m.mem[0x3001] == 0x1025
    requires m.reg[R_R0] == 0
    ensures var o := Step(m);
      o.fault == None && o.m.running &&
      o.m.reg[R_R0] == 5 && o.m.reg[R_COND] == FL_POS && o.m.reg[R_PC] == 0x3002
  {
    StepFetches(m);
    assert Pow2(4) == 0x10;
    assert Imm5(0x1025) == 5;
    Pow2Word();
  }

  /** Two cycles of the sample program leave 5 in R0, COND positive and PC at
      0x3002, with the machine still running. */
  lemma SampleProgram(input: seq<Byte>)
    ensures var o := Run(Boot([SAMPLE], input), 2);
      o.fault == None && o.m.running &&
      o.m.reg[R_R0] == 5 && o.m.reg[R_COND] == FL_POS && o.m.reg[R_PC] == 0x3002
  {
    var m0 := Boot([SAMPLE], input);
    SampleLoaded(input);
    SampleFirstCycle(m0);
    var m1 := Step(m0).m;
    SampleSecondCycle(m1);
    RunCycle(m0, m1, None, 2);
    RunCycle(m1, Step(m1).m, None, 1);
  }
}
