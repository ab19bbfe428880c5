/**
 * The execution engine. One instruction's effect (`RunOne`), the chain of
 * directly threaded steps that runs until an instruction returns
 * (`RunUncheckedVisitor`), and the trampoline that restarts that chain with
 * the depth counter reset (`vm_loop`).
 *
 * The source runs until `RET` and may run forever; here every run carries
 * `fuel`, the number of instructions it may still execute.
 */
module Engine {
  import opened Wrappers
  import opened Packed
  import opened Instruction
  import opened Program

  const STACK_DEPTH_LIMIT: nat := 500

  /** The register file, `[u32; 256]`. */
  type Memory = s: seq<u32> | |s| == 256 witness seq(256, _ => 0)

  function Zeros(): Memory
  {
    seq(256, _ => 0)
  }

  /** `u32` addition as a release build performs it: modulo 2^32. */
  function WrappingAdd(a: u32, b: u32): (r: u32)
    ensures a as int + b as int < 0x1_0000_0000 ==> r as int == a as int + b as int
    ensures a as int + b as int >= 0x1_0000_0000 ==> r as int == a as int + b as int - 0x1_0000_0000
  {
    ((a as int + b as int) % 0x1_0000_0000) as u32
  }

  /** How a chain of steps ends. */
  datatype RunRet = UnwindAndContinue(pc: nat) | Done

  /** What one step asks for next. */
  datatype RunOneRet = Return(ret: RunRet) | Branch(pc: int) | Continue

  /**
   * The state one step acts on: the registers, `RunState::current_stack_depth`,
   * and the values printed so far.
   */
  datatype Machine = Machine(memory: Memory, depth: nat, printed: seq<u32>)

  datatype Effect = Effect(m: Machine, ret: RunOneRet)

  /** The register an instruction writes, if any. */
  function Written(insn: Insn): Option<u8>
  {
    match insn
    case OpLoad(result, _) => Some(result)
    case OpAdd(result, _, _) => Some(result)
    case _ => None
  }

  /** `RunOne`: the effect of the instruction `insn` found at `pc`. */
  function Exec(insn: Insn, pc: nat, m: Machine): (e: Effect)
    ensures e.ret.Branch? ==> insn.OpJmpNE? && e.ret.pc == pc + insn.target as int
    ensures e.ret.Return? && e.ret.ret.Done? <==> insn.OpRet?
    ensures e.ret.Return? && e.ret.ret.UnwindAndContinue? ==>
      insn.OpUnwindIfNeeded? && e.ret.ret.pc == pc + insn.Size() && e.m.depth > STACK_DEPTH_LIMIT
  {
    match insn
    case OpLoad(result, imm) =>
      Effect(m.(memory := m.memory[result := imm]), Continue)
    case OpAdd(result, input0, input1) =>
      Effect(m.(memory := m.memory[result := WrappingAdd(m.memory[input0], m.memory[input1])]), Continue)
    case OpJmpNE(input0, input1, target) =>
      if m.memory[input0] != m.memory[input1] then Effect(m, Branch(pc + target as int))
      else Effect(m, Continue)
    case OpPrint(input) =>
      Effect(m.(printed := m.printed + [m.memory[input]]), Continue)
    case OpRet =>
      Effect(m, Return(Done))
    case OpUnwindIfNeeded(depth) =>
      var d := m.depth + depth as nat;
      // do_unwind resumes at the unchecked next pc of this instruction
      if d > STACK_DEPTH_LIMIT then Effect(m.(depth := d), Return(UnwindAndContinue(pc + 1 + PayloadSize(UnwindIfNeeded))))
      else Effect(m.(depth := d), Continue)
  }

  /**
   * What one step does to the machine: `LOAD` and `ADD` write only their
   * result register, `PRINT` only appends the printed value, `JMPNE`
   * branches exactly when its registers differ, and `OpUnwindIfNeeded` adds
   * its depth to the counter and unwinds exactly when the counter passes
   * `STACK_DEPTH_LIMIT`, so a chain that goes on has a counter within it.
   */
  lemma ExecEffects(insn: Insn, pc: nat, m: Machine)
    ensures var e := Exec(insn, pc, m);
      && (forall r: u8 :: Written(insn) != Some(r) ==> e.m.memory[r] == m.memory[r])
      && (insn.OpLoad? ==> e.m.memory[insn.result] == insn.imm)
      && (insn.OpAdd? ==> e.m.memory[insn.result] == WrappingAdd(m.memory[insn.input0], m.memory[insn.input1]))
      && e.m.printed == (if insn.OpPrint? then m.printed + [m.memory[insn.input]] else m.printed)
      && e.m.depth == (if insn.OpUnwindIfNeeded? then m.depth + insn.depth as nat else m.depth)
      && (insn.OpJmpNE? ==> (e.ret.Branch? <==> m.memory[insn.input0] != m.memory[insn.input1]))
      && (insn.OpUnwindIfNeeded? ==> (e.ret.Continue? <==> e.m.depth <= STACK_DEPTH_LIMIT))
  {
  }

  /** How a chain of directly threaded steps ends. */
  datatype SegmentEnd =
    | Returned(ret: RunRet, m: Machine, fuel: nat)
    | SegmentFault
    | SegmentOutOfFuel

  /**
   * `RunUncheckedVisitor`: execute the instruction at `pc`; unless it returns,
   * go on at the branch target or at the next instruction. Decoding at an
   * offset that holds no instruction, undefined behaviour in the source, is a
   * fault here.
   */
  function Segment(bytes: seq<u8>, pc: int, m: Machine, fuel: nat): (r: SegmentEnd)
    ensures r.Returned? ==> r.fuel < fuel
    decreases fuel
  {
    if pc < 0 then SegmentFault
    else if fuel == 0 then SegmentOutOfFuel
    else match Decode(bytes, pc)
      case None => SegmentFault
      case Some(insn) =>
        var e := Exec(insn, pc, m);
        match e.ret
        case Return(ret) => Returned(ret, e.m, fuel - 1)
        case Branch(target) => Segment(bytes, target, e.m, fuel - 1)
        case Continue => Segment(bytes, NextPcUnchecked(bytes, pc), e.m, fuel - 1)
  }

  /** Where a chain goes after one step whose effect is `e`. */
  function SegmentAfter(bytes: seq<u8>, pc: nat, insn: Insn, e: Effect, fuel: nat): SegmentEnd
  {
    match e.ret
    case Return(ret) => Returned(ret, e.m, fuel)
    case Branch(target) => Segment(bytes, target, e.m, fuel)
    case Continue => Segment(bytes, pc + insn.Size(), e.m, fuel)
  }

  lemma SegmentStep(bytes: seq<u8>, pc: nat, insn: Insn, m: Machine, fuel: nat)
    requires fuel > 0 && Decode(bytes, pc) == Some(insn)
    ensures Segment(bytes, pc, m, fuel) == SegmentAfter(bytes, pc, insn, Exec(insn, pc, m), fuel - 1)
  {
  }

  /** A chain only appends to what has been printed. */
  lemma {:induction false} SegmentGrows(bytes: seq<u8>, pc: int, m: Machine, fuel: nat)
    ensures var s := Segment(bytes, pc, m, fuel); s.Returned? ==> m.printed <= s.m.printed
    decreases fuel
  {
    if pc >= 0 && fuel > 0 {
      match Decode(bytes, pc)
      case None =>
      case Some(insn) =>
        ExecEffects(insn, pc, m);
        var e := Exec(insn, pc, m);
        match e.ret
        case Return(_) =>
        case Branch(target) => SegmentGrows(bytes, target, e.m, fuel - 1);
        case Continue => SegmentGrows(bytes, NextPcUnchecked(bytes, pc), e.m, fuel - 1);
    }
  }

  /** The outcome of running a program. */
  datatype RunResult = Finished(memory: Memory, printed: seq<u32>) | Fault | OutOfFuel

  /**
   * `vm_loop` from `pc`: run a chain with a fresh depth counter; on
   * `UnwindAndContinue` start another chain there, keeping the registers.
   */
  function Trampoline(bytes: seq<u8>, pc: nat, memory: Memory, printed: seq<u32>, fuel: nat): (r: RunResult)
    ensures r.Finished? ==> printed <= r.printed
    decreases fuel + 1, 0
  {
    SegmentGrows(bytes, pc, Machine(memory, 0, printed), fuel);
    Resume(bytes, Segment(bytes, pc, Machine(memory, 0, printed), fuel))
  }

  /** What the trampoline does with the end of a chain. */
  function Resume(bytes: seq<u8>, s: SegmentEnd): (r: RunResult)
    ensures r.Finished? ==> s.Returned? && s.m.printed <= r.printed
    decreases if s.Returned? then s.fuel + 1 else 0, 1
  {
    match s
    case Returned(Done, m, _) => Finished(m.memory, m.printed)
    case Returned(UnwindAndContinue(next), m, left) => Trampoline(bytes, next, m.memory, m.printed, left)
    case SegmentFault => Fault
    case SegmentOutOfFuel => OutOfFuel
  }

  /** A whole run: registers zeroed once, execution from offset 0. */
  function Run(bytes: seq<u8>, printed: seq<u32>, fuel: nat): (r: RunResult)
    ensures r.Finished? ==> printed <= r.printed
  {
    Trampoline(bytes, 0, Zeros(), printed, fuel)
  }

  /**
   * The reference meaning of a program: the instructions executed one after
   * the other, with no depth counter and no trampoline; `OpUnwindIfNeeded`
   * does nothing.
   */
  function Interp(bytes: seq<u8>, pc: int, memory: Memory, printed: seq<u32>, fuel: nat): RunResult
    decreases fuel
  {
    if pc < 0 then Fault
    else if fuel == 0 then OutOfFuel
    else match Decode(bytes, pc)
      case None => Fault
      case Some(insn) =>
        var next := pc + insn.Size();
        match insn
        case OpLoad(result, imm) => Interp(bytes, next, memory[result := imm], printed, fuel - 1)
        case OpAdd(result, input0, input1) =>
          Interp(bytes, next, memory[result := WrappingAdd(memory[input0], memory[input1])], printed, fuel - 1)
        case OpJmpNE(input0, input1, target) =>
          Interp(bytes, if memory[input0] != memory[input1] then pc + target as int else next, memory, printed, fuel - 1)
        case OpPrint(input) => Interp(bytes, next, memory, printed + [memory[input]], fuel - 1)
        case OpRet => Finished(memory, printed)
        case OpUnwindIfNeeded(_) => Interp(bytes, next, memory, printed, fuel - 1)
  }

  /** Where the reference interpreter goes after one step whose effect is `e`. */
  function InterpAfter(bytes: seq<u8>, pc: nat, insn: Insn, e: Effect, fuel: nat): RunResult
  {
    match e.ret
    case Return(Done) => Finished(e.m.memory, e.m.printed)
    case Return(UnwindAndContinue(next)) => Interp(bytes, next, e.m.memory, e.m.printed, fuel)
    case Branch(target) => Interp(bytes, target, e.m.memory, e.m.printed, fuel)
    case Continue => Interp(bytes, pc + insn.Size(), e.m.memory, e.m.printed, fuel)
  }

  /**
   * One step of the reference interpreter is `RunOne`'s effect, whatever the
   * depth counter: an unwind resumes exactly where continuing would have.
   */
  lemma InterpStep(bytes: seq<u8>, pc: nat, insn: Insn, m: Machine, fuel: nat)
    requires fuel > 0 && Decode(bytes, pc) == Some(insn)
    ensures Interp(bytes, pc, m.memory, m.printed, fuel) == InterpAfter(bytes, pc, insn, Exec(insn, pc, m), fuel - 1)
  {
    match insn
    case OpUnwindIfNeeded(depth) =>
      assert pc + 1 + PayloadSize(UnwindIfNeeded) == pc + insn.Size();
    case _ =>
  }

  /** Where the trampoline goes after one step of a chain whose effect is `e`. */
  function ResumeAfter(bytes: seq<u8>, pc: nat, insn: Insn, e: Effect, fuel: nat): RunResult
  {
    match e.ret
    case Return(Done) => Finished(e.m.memory, e.m.printed)
    case Return(UnwindAndContinue(next)) => Resume(bytes, Segment(bytes, next, e.m.(depth := 0), fuel))
    case Branch(target) => Resume(bytes, Segment(bytes, target, e.m, fuel))
    case Continue => Resume(bytes, Segment(bytes, pc + insn.Size(), e.m, fuel))
  }

  lemma ResumeStep(bytes: seq<u8>, pc: nat, insn: Insn, m: Machine, fuel: nat)
    requires fuel > 0 && Decode(bytes, pc) == Some(insn)
    ensures Resume(bytes, Segment(bytes, pc, m, fuel)) == ResumeAfter(bytes, pc, insn, Exec(insn, pc, m), fuel - 1)
  {
    SegmentStep(bytes, pc, insn, m, fuel);
  }

  /** If the runs after one step agree, the runs from before it agree. */
  lemma StepCommutes(bytes: seq<u8>, pc: nat, insn: Insn, m: Machine, fuel: nat)
    requires fuel > 0 && Decode(bytes, pc) == Some(insn)
    requires ResumeAfter(bytes, pc, insn, Exec(insn, pc, m), fuel - 1) == InterpAfter(bytes, pc, insn, Exec(insn, pc, m), fuel - 1)
    ensures Resume(bytes, Segment(bytes, pc, m, fuel)) == Interp(bytes, pc, m.memory, m.printed, fuel)
  {
    ResumeStep(bytes, pc, insn, m, fuel);
    InterpStep(bytes, pc, insn, m, fuel);
  }

  /**
   * A chain started with any depth counter, followed by the trampoline,
   * computes what the reference interpreter computes with the same fuel.
   */
  lemma {:induction false} SegmentThenTrampoline(bytes: seq<u8>, pc: int, m: Machine, fuel: nat)
    ensures Resume(bytes, Segment(bytes, pc, m, fuel)) == Interp(bytes, pc, m.memory, m.printed, fuel)
    decreases fuel, 0
  {
    if pc >= 0 && fuel > 0 && Decode(bytes, pc).Some? {
      var insn := Decode(bytes, pc).value;
      AfterAgree(bytes, pc, insn, Exec(insn, pc, m), fuel - 1);
      StepCommutes(bytes, pc, insn, m, fuel);
    }
  }

  /** Whatever one step does, the trampoline and the reference interpreter agree from there on. */
  lemma {:induction false} AfterAgree(bytes: seq<u8>, pc: nat, insn: Insn, e: Effect, fuel: nat)
    ensures ResumeAfter(bytes, pc, insn, e, fuel) == InterpAfter(bytes, pc, insn, e, fuel)
    decreases fuel, 1
  {
    match e.ret {
      case Return(UnwindAndContinue(next)) =>
        SegmentThenTrampoline(bytes, next, e.m.(depth := 0), fuel);
      case Return(Done) =>
      case Branch(target) =>
        SegmentThenTrampoline(bytes, target, e.m, fuel);
      case Continue =>
        SegmentThenTrampoline(bytes, pc + insn.Size(), e.m, fuel);
    }
  }

  /**
   * The trampoline is invisible: `vm_loop`'s unwinding and depth resets never
   * change what a program computes or prints.
   */
  lemma TrampolineTransparent(bytes: seq<u8>, printed: seq<u32>, fuel: nat)
    ensures Run(bytes, printed, fuel) == Interp(bytes, 0, Zeros(), printed, fuel)
  {
    SegmentThenTrampoline(bytes, 0, Machine(Zeros(), 0, printed), fuel);
  }

  /** From any offset of a set closed under control flow, the reference run never faults. */
  lemma {:induction false} InterpNeverFaults(bytes: seq<u8>, starts: set<int>, pc: int, memory: Memory, printed: seq<u32>, fuel: nat)
    requires Closed(bytes, starts) && pc in starts
    ensures Interp(bytes, pc, memory, printed, fuel) != Fault
    decreases fuel
  {
    ClosedAt(bytes, starts, pc);
    if fuel > 0 {
      var m := Machine(memory, 0, printed);
      var insn := Decode(bytes, pc).value;
      var e := Exec(insn, pc, m);
      InterpStep(bytes, pc, insn, m, fuel);
      match e.ret
      case Return(Done) =>
      case Return(UnwindAndContinue(next)) =>
        InterpNeverFaults(bytes, starts, next, e.m.memory, e.m.printed, fuel - 1);
      case Branch(target) =>
        InterpNeverFaults(bytes, starts, target, e.m.memory, e.m.printed, fuel - 1);
      case Continue =>
        InterpNeverFaults(bytes, starts, pc + insn.Size(), e.m.memory, e.m.printed, fuel - 1);
    }
  }

  /**
   * From any offset of a set closed under control flow, a chain never faults,
   * and when it unwinds it hands the trampoline an offset of that set.
   */
  lemma {:induction false} SegmentNeverFaults(bytes: seq<u8>, starts: set<int>, pc: int, m: Machine, fuel: nat)
    requires Closed(bytes, starts) && pc in starts
    ensures var s := Segment(bytes, pc, m, fuel);
      && s != SegmentFault
      && (s.Returned? && s.ret.UnwindAndContinue? ==> s.ret.pc in starts)
    decreases fuel
  {
    ClosedAt(bytes, starts, pc);
    if fuel > 0 {
      var insn := Decode(bytes, pc).value;
      var e := Exec(insn, pc, m);
      SegmentStep(bytes, pc, insn, m, fuel);
      match e.ret
      case Return(_) =>
      case Branch(target) =>
        SegmentNeverFaults(bytes, starts, target, e.m, fuel - 1);
      case Continue =>
        SegmentNeverFaults(bytes, starts, pc + insn.Size(), e.m, fuel - 1);
    }
  }

  /** Running a well-formed program never decodes outside its instructions. */
  lemma RunNeverFaults(bytes: seq<u8>, printed: seq<u32>, fuel: nat)
    requires WellFormed(bytes)
    ensures Run(bytes, printed, fuel) != Fault
  {
    WellFormedClosed(bytes);
    TrampolineTransparent(bytes, printed, fuel);
    InterpNeverFaults(bytes, Starts(Parse(bytes).value), 0, Zeros(), printed, fuel);
  }

  // ---- The bound the depth counter puts on a chain.

  /** `a` copies of `k` added up: `a * k`, kept apart from the solver's nonlinear arithmetic. */
  function Weight(a: nat, k: nat): nat
  {
    if a == 0 then 0 else Weight(a - 1, k) + k
  }

  lemma {:induction false} WeightProduct(a: nat, k: nat)
    ensures Weight(a, k) == a * k
  {
    if a > 0 {
      WeightProduct(a - 1, k);
    }
  }

  /** More copies weigh more, by at least one copy. */
  lemma {:induction false} WeightMono(a: nat, b: nat, k: nat)
    requires a <= b
    ensures Weight(a, k) + (if a < b then k else 0) <= Weight(b, k)
    decreases b
  {
    if a < b {
      WeightMono(a, b - 1, k);
    }
  }

  /**
   * A potential that every step of a chain through a guarded program lowers:
   * the room left under `STACK_DEPTH_LIMIT` (one more at an `OpJmpNE`, whose
   * unwind check has already been charged) weighs more than any position,
   * and the position counts down towards the end of the program.
   */
  function ChainMeasure(insns: seq<Insn>, i: nat, depth: nat): nat
    requires i < |insns| && depth <= STACK_DEPTH_LIMIT
  {
    Weight(STACK_DEPTH_LIMIT + 1 - depth + (if insns[i].OpJmpNE? then 1 else 0), |insns| + 1) + (|insns| - i)
  }

  /** The length of any chain through a guarded program of `n` instructions. */
  function ChainBound(n: nat): nat
  {
    (STACK_DEPTH_LIMIT + 3) * (n + 1)
  }

  lemma MeasureLess(a: nat, b: nat, x: nat, y: nat, n: nat)
    requires (a < b && y <= n) || (a <= b && y < x)
    ensures Weight(a, n + 1) + y < Weight(b, n + 1) + x
  {
    WeightMono(a, b, n + 1);
  }

  lemma MeasureBelowBound(insns: seq<Insn>, i: nat, depth: nat)
    requires i < |insns| && depth <= STACK_DEPTH_LIMIT
    ensures ChainMeasure(insns, i, depth) < ChainBound(|insns|)
  {
    var a := STACK_DEPTH_LIMIT + 1 - depth + (if insns[i].OpJmpNE? then 1 else 0);
    MeasureLess(a, STACK_DEPTH_LIMIT + 3, 0, |insns| - i, |insns|);
    WeightProduct(STACK_DEPTH_LIMIT + 3, |insns| + 1);
  }

  /** The potential drops across a taken branch and across a step to the next instruction. */
  lemma MeasureDrops(insns: seq<Insn>, i: nat, j: nat, d: nat, d': nat)
    requires i < |insns| && j < |insns| && d <= STACK_DEPTH_LIMIT && d' <= STACK_DEPTH_LIMIT
    requires || (insns[i].OpJmpNE? && !insns[j].OpJmpNE? && d' == d)
             || (j == i + 1 && d' >= d + (if insns[j].OpJmpNE? then 1 else 0))
    ensures ChainMeasure(insns, j, d') < ChainMeasure(insns, i, d)
  {
    var n := |insns|;
    var a := STACK_DEPTH_LIMIT + 1 - d' + (if insns[j].OpJmpNE? then 1 else 0);
    var b := STACK_DEPTH_LIMIT + 1 - d + (if insns[i].OpJmpNE? then 1 else 0);
    MeasureLess(a, b, n - i, n - j, n);
  }

  /** In a guarded program an `OpJmpNE` is preceded by an unwind check of positive depth. */
  lemma GuardedCheck(insns: seq<Insn>, k: nat)
    requires GuardedInsns(insns) && k < |insns| && insns[k].OpJmpNE?
    ensures 0 < k && insns[k - 1].OpUnwindIfNeeded? && insns[k - 1].depth > 0
  {
    assert GuardedAt(insns, k);
  }

  /** In a guarded program an `OpJmpNE` lands on an instruction that is not an `OpJmpNE`. */
  lemma GuardedTarget(insns: seq<Insn>, k: nat) returns (t: nat)
    requires GuardedInsns(insns) && k < |insns| && insns[k].OpJmpNE?
    ensures t < |insns| && !insns[t].OpJmpNE? && Offset(insns, k) + insns[k].target as int == Offset(insns, t)
  {
    assert GuardedAt(insns, k);
    t :| 0 <= t < |insns| && !insns[t].OpJmpNE? && Offset(insns, k) + insns[k].target as int == Offset(insns, t);
  }

  /** `bytes` holds each instruction of `insns` at its offset, as `EncodeAll(insns)` does. */
  ghost predicate HoldsAt(bytes: seq<u8>, insns: seq<Insn>)
  {
    forall k :: 0 <= k < |insns| ==> Decode(bytes, Offset(insns, k)) == Some(insns[k])
  }

  lemma EncodeAllHolds(insns: seq<Insn>)
    ensures HoldsAt(EncodeAll(insns), insns)
  {
    forall k | 0 <= k < |insns|
      ensures Decode(EncodeAll(insns), Offset(insns, k)) == Some(insns[k])
    {
      DecodeAtOffset(insns, k);
    }
  }

  /**
   * A step of a chain through a guarded program that does not return goes on
   * at another instruction, with the counter still within the limit and the
   * potential lowered.
   */
  lemma GuardedStep(bytes: seq<u8>, insns: seq<Insn>, i: nat, m: Machine, fuel: nat) returns (j: nat)
    requires GuardedInsns(insns) && i < |insns| && m.depth <= STACK_DEPTH_LIMIT
    requires !Exec(insns[i], Offset(insns, i), m).ret.Return?
    ensures var e := Exec(insns[i], Offset(insns, i), m);
      && j < |insns| && e.m.depth <= STACK_DEPTH_LIMIT
      && SegmentAfter(bytes, Offset(insns, i), insns[i], e, fuel) == Segment(bytes, Offset(insns, j), e.m, fuel)
      && ChainMeasure(insns, j, e.m.depth) < ChainMeasure(insns, i, m.depth)
  {
    var insn := insns[i];
    var pc := Offset(insns, i);
    var e := Exec(insn, pc, m);
    if e.ret.Branch? {
      assert insn.OpJmpNE? && e.m.depth == m.depth;
      j := GuardedTarget(insns, i);
      assert e.ret.pc == Offset(insns, j);
      MeasureDrops(insns, i, j, m.depth, e.m.depth);
    } else {
      assert e.m.depth == if insn.OpUnwindIfNeeded? then m.depth + insn.depth as nat else m.depth;
      assert i != |insns| - 1;
      OffsetNext(insns, i);
      j := i + 1;
      assert e.ret.Continue? && pc + insn.Size() == Offset(insns, j);
      if insns[j].OpJmpNE? {
        GuardedCheck(insns, j);
      }
      MeasureDrops(insns, i, j, m.depth, e.m.depth);
    }
  }

  /** One step of a chain through a guarded program: it returns, or goes on with a lower potential. */
  lemma ChainStep(bytes: seq<u8>, insns: seq<Insn>, i: nat, m: Machine, fuel: nat) returns (returned: bool, j: nat, m': Machine)
    requires HoldsAt(bytes, insns) && GuardedInsns(insns) && i < |insns| && m.depth <= STACK_DEPTH_LIMIT && fuel > 0
    ensures var s := Segment(bytes, Offset(insns, i), m, fuel);
      && (returned ==> s.Returned? && s.fuel == fuel - 1)
      && (!returned ==>
            && j < |insns| && m'.depth <= STACK_DEPTH_LIMIT
            && ChainMeasure(insns, j, m'.depth) < ChainMeasure(insns, i, m.depth)
            && s == Segment(bytes, Offset(insns, j), m', fuel - 1))
  {
    var pc := Offset(insns, i);
    assert Decode(bytes, pc) == Some(insns[i]);
    SegmentStep(bytes, pc, insns[i], m, fuel);
    var e := Exec(insns[i], pc, m);
    returned := e.ret.Return?;
    if returned {
      j, m' := i, m;
    } else {
      j := GuardedStep(bytes, insns, i, m, fuel - 1);
      m' := e.m;
    }
  }

  /**
   * A chain started at any instruction of a guarded program, with the depth
   * counter within `STACK_DEPTH_LIMIT`, returns to the trampoline after at
   * most `ChainMeasure + 1` steps, however often the program's loops run:
   * each trip round a loop passes an unwind check that raises the counter.
   */
  lemma {:induction false} ChainReturns(bytes: seq<u8>, insns: seq<Insn>, i: nat, m: Machine, fuel: nat)
    requires HoldsAt(bytes, insns) && GuardedInsns(insns) && i < |insns| && m.depth <= STACK_DEPTH_LIMIT
    ensures var s := Segment(bytes, Offset(insns, i), m, fuel);
      && (fuel > ChainMeasure(insns, i, m.depth) ==> s.Returned?)
      && (s.Returned? ==> fuel - s.fuel <= ChainMeasure(insns, i, m.depth) + 1)
    decreases fuel
  {
    if fuel > 0 {
      var returned, j, m' := ChainStep(bytes, insns, i, m, fuel);
      if !returned {
        ChainReturns(bytes, insns, j, m', fuel - 1);
      }
    }
  }

  /**
   * The bound does not depend on how many times a loop runs: with
   * `ChainBound` fuel a chain always gets back to the trampoline, and no
   * chain ever executes more than `ChainBound` steps.
   */
  lemma ChainBounded(insns: seq<Insn>, i: nat, m: Machine, fuel: nat)
    requires GuardedInsns(insns) && i < |insns| && m.depth <= STACK_DEPTH_LIMIT
    ensures var s := Segment(EncodeAll(insns), Offset(insns, i), m, fuel);
      && (fuel >= ChainBound(|insns|) ==> s.Returned?)
      && (s.Returned? ==> fuel - s.fuel <= ChainBound(|insns|))
  {
    EncodeAllHolds(insns);
    ChainReturns(EncodeAll(insns), insns, i, m, fuel);
    MeasureBelowBound(insns, i, m.depth);
  }

  // ---- The engine as the source runs it: a register array updated in place.

  /** `RunState`: the depth counter of one chain, and the program it runs. */
  class RunState {
    var currentStackDepth: nat
    const internalProgram: seq<u8>

    constructor (prog: seq<u8>)
      ensures currentStackDepth == 0 && internalProgram == prog
    {
      currentStackDepth := 0;
      internalProgram := prog;
    }
  }

  /** Standard output, where `PRINT` writes one value per line. */
  class Stdout {
    var printed: seq<u32>

    method PrintLine(v: u32)
      modifies this
      ensures printed == old(printed) + [v]
    {
      printed := printed + [v];
    }
  }

  /** `RunOne`: execute `insn`, the instruction at `pc`, against the registers and the run state. */
  method RunOne(pc: nat, insn: Insn, memory: array<u32>, state: RunState, out: Stdout) returns (r: RunOneRet)
    requires memory.Length == 256
    modifies memory, state, out
    ensures var e := Exec(insn, pc, Machine(old(memory[..]), old(state.currentStackDepth), old(out.printed)));
      && memory[..] == e.m.memory
      && state.currentStackDepth == e.m.depth
      && out.printed == e.m.printed
      && r == e.ret
  {
    match insn
    case OpLoad(result, imm) =>
      memory[result] := imm;
      r := Continue;
    case OpAdd(result, input0, input1) =>
      memory[result] := WrappingAdd(memory[input0], memory[input1]);
      r := Continue;
    case OpJmpNE(input0, input1, target) =>
      if memory[input0] != memory[input1] {
        r := Branch(pc + target as int);
      } else {
        r := Continue;
      }
    case OpPrint(input) =>
      out.PrintLine(memory[input]);
      r := Continue;
    case OpRet =>
      r := Return(Done);
    case OpUnwindIfNeeded(depth) =>
      state.currentStackDepth := state.currentStackDepth + depth as nat;
      if state.currentStackDepth > STACK_DEPTH_LIMIT {
        r := Return(UnwindAndContinue(pc + 1 + PayloadSize(UnwindIfNeeded)));
      } else {
        r := Continue;
      }
  }

  /** The end of a chain as the chain method reports it: `None` when the fuel ran out. */
  function Reported(r: Option<RunRet>, left: nat, m: Machine): (s: SegmentEnd)
    ensures s != SegmentFault
  {
    match r
    case None => SegmentOutOfFuel
    case Some(ret) => Returned(ret, m, left)
  }

  /**
   * `RunUncheckedVisitor`: the chain of directly threaded steps from `pc`,
   * updating the registers, the depth counter and the output in place. The
   * source trusts the program to hold an instruction wherever the chain
   * goes; so does this method, by requiring that the chain does not fault.
   * `None` means the fuel ran out, a case the source does not have.
   */
  method RunUnchecked(bytes: seq<u8>, pc: nat, memory: array<u32>, state: RunState, out: Stdout, fuel: nat)
    returns (r: Option<RunRet>, left: nat)
    requires memory.Length == 256
    requires Segment(bytes, pc, Machine(memory[..], state.currentStackDepth, out.printed), fuel) != SegmentFault
    modifies memory, state, out
    ensures Segment(bytes, pc, Machine(old(memory[..]), old(state.currentStackDepth), old(out.printed)), fuel)
      == Reported(r, left, Machine(memory[..], state.currentStackDepth, out.printed))
    decreases fuel
  {
    ghost var m := Machine(memory[..], state.currentStackDepth, out.printed);
    if fuel == 0 {
      return None, 0;
    }
    var insn := Decode(bytes, pc).value;
    SegmentStep(bytes, pc, insn, m, fuel);
    var ret := RunOne(pc, insn, memory, state, out);
    match ret
    case Return(rr) =>
      r, left := Some(rr), fuel - 1;
    case Branch(target) =>
      r, left := RunUnchecked(bytes, target, memory, state, out, fuel - 1);
    case Continue =>
      r, left := RunUnchecked(bytes, NextPcUnchecked(bytes, pc), memory, state, out, fuel - 1);
  }

  /**
   * `vm_loop`: zero the registers once, then run chains from offset 0, each
   * with a fresh `RunState` (depth counter 0), until one returns `Done`.
   * `finished` is false when the fuel ran out first.
   */
  method VmLoop(bytes: seq<u8>, out: Stdout, fuel: nat) returns (finished: bool)
    requires WellFormed(bytes)
    modifies out
    ensures var r := Run(bytes, old(out.printed), fuel);
      && r != Fault
      && (finished <==> r.Finished?)
      && (finished ==> out.printed == r.printed)
  {
    var memory := new u32[256](_ => 0);
    assert memory[..] == Zeros();
    var pc: nat := 0;
    var left := fuel;
    ghost var starts := Starts(Parse(bytes).value);
    WellFormedClosed(bytes);
    while true
      invariant memory.Length == 256
      invariant pc in starts
      invariant Trampoline(bytes, pc, memory[..], out.printed, left) == Run(bytes, old(out.printed), fuel)
      decreases left
    {
      var state := new RunState(bytes);
      SegmentNeverFaults(bytes, starts, pc, Machine(memory[..], 0, out.printed), left);
      var r, l := RunUnchecked(bytes, pc, memory, state, out, left);
      match r
      case None =>
        return false;
      case Some(Done) =>
        return true;
      case Some(UnwindAndContinue(next)) =>
        pc, left := next, l;
    }
  }
}
