/**
 * The program `main` converts and runs: count register 0 up by register 1
 * until it equals register 2, which holds `n`, then print register 0. Debug
 * builds use `n = 2`. Its conversion is checked offset by offset, and running
 * it prints `n`.
 */
module Example {
  import opened Wrappers
  import opened Packed
  import opened Instruction
  import opened Program
  import opened Engine
  import opened Convert

  /** The source program, with `n` the value loaded into register 2. */
  function CountTo(n: u32): seq<Bytecode>
  {
    [ Bytecode(LOAD, 0, 0, 0, 0, 0),
      Bytecode(LOAD, 1, 0, 0, 1, 0),
      Bytecode(LOAD, 2, 0, 0, n, 0),
      Bytecode(ADD, 0, 0, 1, 0, 0),
      Bytecode(JMPNE, 0, 2, 0, 0, 3),
      Bytecode(PRINT, 0, 0, 0, 0, 0),
      Bytecode(RET, 0, 0, 0, 0, 0) ]
  }

  /** What it converts to: the `JMPNE` at index 4 becomes an unwind check of depth 5 and a branch back 7 bytes. */
  function CountToInsns(n: u32): seq<Insn>
  {
    [ OpLoad(0, 0), OpLoad(1, 1), OpLoad(2, n), OpAdd(0, 0, 1),
      OpUnwindIfNeeded(5), OpJmpNE(0, 2, -7), OpPrint(0), OpRet ]
  }

  lemma CountToConverts(n: u32)
    ensures Translate(CountTo(n)) == Ok(CountToInsns(n))
  {
    var src := CountTo(n);
    var insns := CountToInsns(n);
    assert SourceOffset(src, 1) == 6;
    assert SourceOffset(src, 2) == 12;
    assert SourceOffset(src, 3) == 18;
    assert SourceOffset(src, 4) == 22;
    assert Displacement(src, 4, 3) == -7;
    assert Lower(src, 0) == Ok([OpLoad(0, 0)]);
    assert Lower(src, 1) == Ok([OpLoad(1, 1)]);
    assert Lower(src, 2) == Ok([OpLoad(2, n)]);
    assert Lower(src, 3) == Ok([OpAdd(0, 0, 1)]);
    assert Lower(src, 4) == Ok([OpUnwindIfNeeded(5), OpJmpNE(0, 2, -7)]);
    assert Lower(src, 5) == Ok([OpPrint(0)]);
    assert Lower(src, 6) == Ok([OpRet]);
    assert insns[..1] == [] + [insns[0]];
    assert LowerPrefix(src, 1) == Ok(insns[..1]);
    assert insns[..2] == insns[..1] + [insns[1]];
    assert LowerPrefix(src, 2) == Ok(insns[..2]);
    assert insns[..3] == insns[..2] + [insns[2]];
    assert LowerPrefix(src, 3) == Ok(insns[..3]);
    assert insns[..4] == insns[..3] + [insns[3]];
    assert LowerPrefix(src, 4) == Ok(insns[..4]);
    assert insns[..6] == insns[..4] + [insns[4], insns[5]];
    assert LowerPrefix(src, 5) == Ok(insns[..6]);
    assert insns[..7] == insns[..6] + [insns[6]];
    assert LowerPrefix(src, 6) == Ok(insns[..7]);
    assert insns == insns[..7] + [insns[7]];
    assert LowerPrefix(src, 7) == Ok(insns);
  }

  /** The layout of the converted program: 33 bytes, the loop body at offset 18, the branch at 25 jumping back to it. */
  lemma CountToLayout(n: u32)
    ensures var insns := CountToInsns(n);
      && Offset(insns, 3) == 18 && Offset(insns, 4) == 22 && Offset(insns, 5) == 25
      && Offset(insns, 6) == 30 && Offset(insns, 7) == 32
      && Offset(insns, 5) + insns[5].target as int == Offset(insns, 3)
      && |EncodeAll(insns)| == 33
  {
    var insns := CountToInsns(n);
    assert Offset(insns, 0) == 0;
    OffsetNext(insns, 0);
    OffsetNext(insns, 1);
    OffsetNext(insns, 2);
    OffsetNext(insns, 3);
    OffsetNext(insns, 4);
    OffsetNext(insns, 5);
    OffsetNext(insns, 6);
    OffsetNext(insns, 7);
  }

  /** The instructions before the loop, where the converted program holds them. */
  lemma InitDecodes(n: u32)
    ensures var bytes := EncodeAll(CountToInsns(n));
      && Decode(bytes, 0) == Some(OpLoad(0, 0)) && Decode(bytes, 6) == Some(OpLoad(1, 1))
      && Decode(bytes, 12) == Some(OpLoad(2, n))
  {
    var insns := CountToInsns(n);
    assert Offset(insns, 0) == 0;
    OffsetNext(insns, 0);
    OffsetNext(insns, 1);
    DecodeAtOffset(insns, 0);
    DecodeAtOffset(insns, 1);
    DecodeAtOffset(insns, 2);
  }

  /** The instructions of the loop and the exit, where the converted program holds them. */
  lemma LoopDecodes(n: u32)
    ensures var bytes := EncodeAll(CountToInsns(n));
      && Decode(bytes, 18) == Some(OpAdd(0, 0, 1))
      && Decode(bytes, 22) == Some(OpUnwindIfNeeded(5)) && Decode(bytes, 25) == Some(OpJmpNE(0, 2, -7))
      && Decode(bytes, 30) == Some(OpPrint(0)) && Decode(bytes, 32) == Some(OpRet)
  {
    var insns := CountToInsns(n);
    CountToLayout(n);
    DecodeAtOffset(insns, 3);
    DecodeAtOffset(insns, 4);
    DecodeAtOffset(insns, 5);
    DecodeAtOffset(insns, 6);
    DecodeAtOffset(insns, 7);
  }

  /** The loop body: add register 1 to register 0, pass the unwind check, reach the branch. */
  lemma LoopBody(n: u32, memory: Memory, printed: seq<u32>, fuel: nat)
    requires fuel >= 2
    ensures var bytes := EncodeAll(CountToInsns(n));
      var next := memory[0 := WrappingAdd(memory[0], memory[1])];
      Interp(bytes, 18, memory, printed, fuel) == Interp(bytes, 25, next, printed, fuel - 2)
  {
    LoopDecodes(n);
  }

  /** The branch: back to the loop body while registers 0 and 2 differ, else print register 0 and return. */
  lemma LoopBranch(n: u32, memory: Memory, printed: seq<u32>, fuel: nat)
    requires fuel >= 3
    ensures var bytes := EncodeAll(CountToInsns(n));
      Interp(bytes, 25, memory, printed, fuel)
        == if memory[0] != memory[2] then Interp(bytes, 18, memory, printed, fuel - 1)
           else Finished(memory, printed + [memory[0]])
  {
    var bytes := EncodeAll(CountToInsns(n));
    LoopDecodes(n);
    if memory[0] == memory[2] {
      assert Interp(bytes, 25, memory, printed, fuel) == Interp(bytes, 30, memory, printed, fuel - 1);
      assert Interp(bytes, 30, memory, printed, fuel - 1) == Interp(bytes, 32, memory, printed + [memory[0]], fuel - 2);
    }
  }

  /**
   * Entering the loop body with register 0 below `n`: the loop counts
   * register 0 up to `n`, then prints it and returns.
   */
  lemma {:induction false} CountLoop(n: u32, k: u32, memory: Memory, printed: seq<u32>, fuel: nat)
    requires memory[0] == k && memory[1] == 1 && memory[2] == n && k < n
    requires fuel >= 3 * (n as int - k as int) + 2
    ensures Interp(EncodeAll(CountToInsns(n)), 18, memory, printed, fuel) == Finished(memory[0 := n], printed + [n])
    decreases n as int - k as int
  {
    var bytes := EncodeAll(CountToInsns(n));
    var next := memory[0 := k + 1];
    assert WrappingAdd(memory[0], memory[1]) == k + 1;
    LoopBody(n, memory, printed, fuel);
    assert Interp(bytes, 18, memory, printed, fuel) == Interp(bytes, 25, next, printed, fuel - 2);
    LoopBranch(n, next, printed, fuel - 2);
    if k + 1 < n {
      assert Interp(bytes, 18, memory, printed, fuel) == Interp(bytes, 18, next, printed, fuel - 3);
      CountLoop(n, k + 1, next, printed, fuel - 3);
      assert next[0 := n] == memory[0 := n];
    } else {
      assert next[0] == n;
      assert Interp(bytes, 18, memory, printed, fuel) == Finished(next, printed + [n]);
      assert next == memory[0 := n];
    }
  }

  /** Run from the start with enough fuel, the converted program prints `n` once and finishes. */
  lemma CountToPrints(n: u32, printed: seq<u32>, fuel: nat)
    requires 1 <= n && fuel >= 3 * n as int + 5
    ensures var r := Run(EncodeAll(CountToInsns(n)), printed, fuel);
      r.Finished? && r.printed == printed + [n] && r.memory[0] == n && r.memory[2] == n
  {
    var bytes := EncodeAll(CountToInsns(n));
    InitDecodes(n);
    TrampolineTransparent(bytes, printed, fuel);
    var m1 := Zeros()[0 := 0];
    var m2 := m1[1 := 1];
    var memory := m2[2 := n];
    assert Interp(bytes, 0, Zeros(), printed, fuel) == Interp(bytes, 6, m1, printed, fuel - 1);
    assert Interp(bytes, 6, m1, printed, fuel - 1) == Interp(bytes, 12, m2, printed, fuel - 2);
    assert Interp(bytes, 12, m2, printed, fuel - 2) == Interp(bytes, 18, memory, printed, fuel - 3);
    CountLoop(n, 0, memory, printed, fuel - 3);
  }

  /**
   * However large `n` is, and so however often the loop runs, every chain of
   * the converted program gets back to the trampoline within
   * `ChainBound(8)` steps.
   */
  lemma CountToChainsBounded(n: u32, i: nat, m: Machine, fuel: nat)
    requires i < 8 && m.depth <= STACK_DEPTH_LIMIT
    ensures var s := Segment(EncodeAll(CountToInsns(n)), Offset(CountToInsns(n), i), m, fuel);
      && (fuel >= ChainBound(8) ==> s.Returned?)
      && (s.Returned? ==> fuel - s.fuel <= ChainBound(8))
  {
    CountToConverts(n);
    TranslateGuarded(CountTo(n));
    ChainBounded(CountToInsns(n), i, m, fuel);
  }
}
