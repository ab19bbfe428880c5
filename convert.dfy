/**
 * `convert`: one pass over the source bytecode that appends the internal
 * encoding of each source instruction to a byte buffer, recording where each
 * one starts. A `JMPNE` becomes an `OpUnwindIfNeeded` followed by an
 * `OpJmpNE` whose target is a byte displacement back to an earlier
 * instruction. Where the source panics (an `unwrap`, an `assert`, `todo!`,
 * `expect`), the model returns the matching `ConvertError`.
 */
module Convert {
  import opened Wrappers
  import opened Packed
  import opened Instruction
  import opened Program

  /** The opcodes of the source bytecode. */
  datatype SourceOpcode = LOAD | ADD | JMPNE | PRINT | RET

  /**
   * One source instruction, as the `get_opcode` and `get_operand_*`
   * accessors see it. The width of the register operands is not fixed here:
   * they are integers that the converter narrows to a byte.
   */
  datatype Bytecode = Bytecode(opcode: SourceOpcode, a: int, b: int, c: int, imm: u32, jmp: int)

  /** Why `convert` gives up. Every case is a panic in the source. */
  datatype ConvertError =
    | EmptyProgram                 // `bytecode.last().unwrap()`
    | LastNotRet                   // the `assert_eq!` on the last opcode
    | DepthOverflow(index: nat)    // `depth.try_into().unwrap()` into a `u16`
    | NegativeTarget(index: nat)   // `usize::try_from(jmp).unwrap()`
    | TargetOutOfBounds(index: nat) // "can't branch out-of-bounds"
    | ForwardBranch(index: nat)    // the `todo!` for forward branches
    | DisplacementOverflow(index: nat) // "branch target is out of range"

  /** An error that names the source instruction it comes from. */
  predicate IndexedError(e: ConvertError)
  {
    !e.EmptyProgram? && !e.LastNotRet?
  }

  /** `x as u8`: keep the low eight bits (two's complement for negative `x`). */
  function Narrow(x: int): (r: u8)
    ensures 0 <= x < 0x100 ==> r as int == x
    ensures -0x100 <= x < 0 ==> r as int == x + 0x100
    ensures (x - r as int) % 0x100 == 0
  {
    (x % 0x100) as u8
  }

  /** Bytes the encoding of one source instruction takes. */
  function SourceSize(op: SourceOpcode): nat
  {
    match op
    case LOAD => 6
    case ADD => 4
    case JMPNE => 3 + 5
    case PRINT => 2
    case RET => 1
  }

  /** Internal instructions emitted for one source instruction. */
  function InsnCount(op: SourceOpcode): nat
  {
    if op == JMPNE then 2 else 1
  }

  /** `byte_offsets[n]`: bytes taken by the encodings of `src[..n]`. */
  function SourceOffset(src: seq<Bytecode>, n: nat): nat
    requires n <= |src|
  {
    if n == 0 then 0 else SourceOffset(src, n - 1) + SourceSize(src[n - 1].opcode)
  }

  /** Internal instructions emitted for `src[..n]`. */
  function InsnIndex(src: seq<Bytecode>, n: nat): nat
    requires n <= |src|
  {
    if n == 0 then 0 else InsnIndex(src, n - 1) + InsnCount(src[n - 1].opcode)
  }

  /**
   * The displacement stored in the `OpJmpNE` of the `JMPNE` at `i`: from the
   * `OpJmpNE`'s own opcode byte, which follows the three bytes of the
   * `OpUnwindIfNeeded`, back to the start of the target.
   */
  function Displacement(src: seq<Bytecode>, i: nat, target: nat): int
    requires i < |src| && target < |src|
  {
    SourceOffset(src, target) - (SourceOffset(src, i) + 3)
  }

  /** The internal instructions for `src[i]`, or the reason conversion stops there. */
  function Lower(src: seq<Bytecode>, i: nat): (r: Result<seq<Insn>, ConvertError>)
    requires i < |src|
    ensures r.Err? ==> src[i].opcode == JMPNE && IndexedError(r.error) && r.error.index == i
  {
    var op := src[i];
    match op.opcode
    case LOAD => Ok([OpLoad(Narrow(op.a), op.imm)])
    case ADD => Ok([OpAdd(Narrow(op.a), Narrow(op.b), Narrow(op.c))])
    case JMPNE =>
      if i + 1 > 0xFFFF then Err(DepthOverflow(i))
      else if op.jmp < 0 then Err(NegativeTarget(i))
      else if op.jmp >= |src| then Err(TargetOutOfBounds(i))
      else if op.jmp > i then Err(ForwardBranch(i))
      else
        var d := Displacement(src, i, op.jmp);
        if d < -0x8000 || d >= 0x8000 then Err(DisplacementOverflow(i))
        else Ok([OpUnwindIfNeeded((i + 1) as u16), OpJmpNE(Narrow(op.a), Narrow(op.b), d as i16)])
    case PRINT => Ok([OpPrint(Narrow(op.a))])
    case RET => Ok([OpRet])
  }

  /** The instructions for `src[..n]`, or the error of the first source instruction that fails. */
  function LowerPrefix(src: seq<Bytecode>, n: nat): (r: Result<seq<Insn>, ConvertError>)
    requires n <= |src|
    ensures r.Err? ==> IndexedError(r.error) && r.error.index < n && src[r.error.index].opcode == JMPNE
  {
    if n == 0 then Ok([])
    else match LowerPrefix(src, n - 1)
      case Err(e) => Err(e)
      case Ok(xs) =>
        match Lower(src, n - 1)
        case Err(e) => Err(e)
        case Ok(ys) => Ok(xs + ys)
  }

  /** What `convert` produces: the checks on the last instruction, then every instruction in order. */
  function Translate(src: seq<Bytecode>): (r: Result<seq<Insn>, ConvertError>)
    ensures r == Err(EmptyProgram) <==> |src| == 0
    ensures r == Err(LastNotRet) <==> |src| > 0 && src[|src| - 1].opcode != RET
  {
    if |src| == 0 then Err(EmptyProgram)
    else if src[|src| - 1].opcode != RET then Err(LastNotRet)
    else LowerPrefix(src, |src|)
  }

  /** The recorded offsets `byte_offsets` holds once `src[..n]` is encoded. */
  function Offsets(src: seq<Bytecode>, n: nat): (offsets: seq<nat>)
    requires n <= |src|
    ensures |offsets| == n
  {
    seq(n, j requires 0 <= j < n => SourceOffset(src, j))
  }

  // ---- The converter as the source runs it.

  /**
   * `convert`: a single loop that records `bytes.len()` in `byteOffsets`,
   * then encodes the instruction into `bytes` (a `JMPNE` through
   * `EncodeBranch`).
   */
  method Convert(src: seq<Bytecode>) returns (r: Result<seq<u8>, ConvertError>)
    ensures Translate(src).Ok? ==> r == Ok(EncodeAll(Translate(src).value))
    ensures Translate(src).Err? ==> r == Err(Translate(src).error)
    ensures r.Ok? ==> WellFormed(r.value) && |r.value| == SourceOffset(src, |src|)
  {
    var bytes := new ByteVec();
    var byteOffsets: seq<nat> := [];
    if |src| == 0 {
      return Err(EmptyProgram);
    }
    if src[|src| - 1].opcode != RET {
      return Err(LastNotRet);
    }
    ghost var lowered: seq<Insn> := [];
    for index := 0 to |src|
      invariant LowerPrefix(src, index) == Ok(lowered)
      invariant bytes.bytes == EncodeAll(lowered)
      invariant |bytes.bytes| == SourceOffset(src, index)
      invariant byteOffsets == Offsets(src, index)
    {
      ghost var before := bytes.bytes;
      OffsetsNext(src, index);
      byteOffsets := byteOffsets + [|bytes.bytes|];
      var op := src[index];
      match op.opcode {
        case LOAD =>
          EncodeInto(OpLoad(Narrow(op.a), op.imm), bytes);
        case ADD =>
          EncodeInto(OpAdd(Narrow(op.a), Narrow(op.b), Narrow(op.c)), bytes);
        case JMPNE =>
          var failure := EncodeBranch(src, index, bytes, byteOffsets);
          if failure.Some? {
            FailsAt(src, index);
            return Err(failure.value);
          }
        case PRINT =>
          EncodeInto(OpPrint(Narrow(op.a)), bytes);
        case RET =>
          EncodeInto(OpRet, bytes);
      }
      ghost var step := Lower(src, index).value;
      assert bytes.bytes == before + EncodeAll(step) by {
        LowerEncoding(src, index);
      }
      PrefixNext(src, index, lowered);
      lowered := lowered + step;
    }
    TranslateWellFormed(src);
    r := Ok(bytes.bytes);
  }

  /**
   * The `JMPNE` arm of `convert` for `src[index]`: encode the unwind check
   * with depth `index + 1`, then resolve the target to a displacement from
   * the `OpJmpNE` about to be encoded, using the recorded offsets. On
   * failure, `bytes` may hold a partial encoding; the source panics there.
   */
  method EncodeBranch(src: seq<Bytecode>, index: nat, bytes: ByteVec, byteOffsets: seq<nat>)
    returns (failure: Option<ConvertError>)
    requires index < |src| && src[index].opcode == JMPNE
    requires |bytes.bytes| == SourceOffset(src, index) && byteOffsets == Offsets(src, index + 1)
    modifies bytes
    ensures failure.Some? <==> Lower(src, index).Err?
    ensures failure.Some? ==> failure.value == Lower(src, index).error
    ensures failure.None? ==> bytes.bytes == old(bytes.bytes) + EncodeAll(Lower(src, index).value)
  {
    var op := src[index];
    var depth := index + 1;
    if depth > 0xFFFF {
      return Some(DepthOverflow(index));
    }
    EncodeInto(OpUnwindIfNeeded(depth as u16), bytes);
    if op.jmp < 0 {
      return Some(NegativeTarget(index));
    }
    var target := op.jmp;
    if target >= |src| {
      return Some(TargetOutOfBounds(index));
    }
    if target > index {
      return Some(ForwardBranch(index));
    }
    var d := byteOffsets[target] - |bytes.bytes|;
    assert d == Displacement(src, index, target);
    if d < -0x8000 || d >= 0x8000 {
      return Some(DisplacementOverflow(index));
    }
    ghost var unwind := bytes.bytes;
    EncodeInto(OpJmpNE(Narrow(op.a), Narrow(op.b), d as i16), bytes);
    BranchLowered(src, index);
    failure := None;
  }

  /** A `JMPNE` that passes the checks lowers to the unwind check and the resolved branch. */
  lemma BranchLowered(src: seq<Bytecode>, i: nat)
    requires i < |src| && src[i].opcode == JMPNE && BranchOk(src, i)
    ensures var op := src[i];
      var unwind := OpUnwindIfNeeded((i + 1) as u16);
      var branch := OpJmpNE(Narrow(op.a), Narrow(op.b), Displacement(src, i, op.jmp) as i16);
      && Lower(src, i) == Ok([unwind, branch])
      && EncodeAll(Lower(src, i).value) == Encode(unwind) + Encode(branch)
  {
    LowerEncoding(src, i);
  }

  lemma OffsetsNext(src: seq<Bytecode>, n: nat)
    requires n < |src|
    ensures Offsets(src, n + 1) == Offsets(src, n) + [SourceOffset(src, n)]
  {
  }

  /** When `src[..n]` converts and `src[n]` does not, conversion fails with `src[n]`'s error. */
  lemma FailsAt(src: seq<Bytecode>, n: nat)
    requires n < |src| && src[|src| - 1].opcode == RET
    requires LowerPrefix(src, n).Ok? && Lower(src, n).Err?
    ensures Translate(src) == Err(Lower(src, n).error)
  {
    PrefixErr(src, n, |src|);
  }

  /** Converting one more instruction appends its instructions, bytes and size. */
  lemma PrefixNext(src: seq<Bytecode>, n: nat, xs: seq<Insn>)
    requires n < |src| && LowerPrefix(src, n) == Ok(xs) && Lower(src, n).Ok?
    ensures LowerPrefix(src, n + 1) == Ok(xs + Lower(src, n).value)
    ensures EncodeAll(xs + Lower(src, n).value) == EncodeAll(xs) + EncodeAll(Lower(src, n).value)
    ensures SourceOffset(src, n + 1) == SourceOffset(src, n) + TotalSize(Lower(src, n).value)
  {
    EncodeAllConcat(xs, Lower(src, n).value);
    LowerShape(src, n);
  }

  // ---- Properties of the translation.

  /** One source instruction lowers to `InsnCount` instructions taking `SourceSize` bytes. */
  lemma LowerShape(src: seq<Bytecode>, i: nat)
    requires i < |src| && Lower(src, i).Ok?
    ensures |Lower(src, i).value| == InsnCount(src[i].opcode)
    ensures TotalSize(Lower(src, i).value) == SourceSize(src[i].opcode)
  {
    var ys := Lower(src, i).value;
    assert TotalSize(ys) == ys[0].Size() + TotalSize(ys[1..]);
    if |ys| == 2 {
      assert TotalSize(ys[1..]) == ys[1].Size() + TotalSize(ys[2..]);
    }
  }

  /** The bytes appended for `src[i]` are the encodings of its instructions, one after the other. */
  lemma LowerEncoding(src: seq<Bytecode>, i: nat)
    requires i < |src| && Lower(src, i).Ok?
    ensures var ys := Lower(src, i).value;
      EncodeAll(ys) == if |ys| == 1 then Encode(ys[0]) else Encode(ys[0]) + Encode(ys[1])
  {
  }

  /** Once an instruction fails, every longer prefix fails with its error. */
  lemma {:induction false} PrefixErr(src: seq<Bytecode>, i: nat, n: nat)
    requires i < n <= |src|
    requires LowerPrefix(src, i).Ok? && Lower(src, i).Err?
    ensures LowerPrefix(src, n) == Err(Lower(src, i).error)
    decreases n
  {
    if n > i + 1 {
      PrefixErr(src, i, n - 1);
    }
  }

  // ---- When conversion succeeds.

  /** The checks `convert` makes on a `JMPNE` at `i`, all passing. */
  predicate BranchOk(src: seq<Bytecode>, i: nat)
    requires i < |src|
  {
    && i + 1 <= 0xFFFF
    && 0 <= src[i].jmp <= i
    && -0x8000 <= Displacement(src, i, src[i].jmp) < 0x8000
  }

  lemma LowerOk(src: seq<Bytecode>, i: nat)
    requires i < |src|
    ensures Lower(src, i).Ok? <==> (src[i].opcode == JMPNE ==> BranchOk(src, i))
  {
  }

  lemma {:induction false} PrefixOk(src: seq<Bytecode>, n: nat)
    requires n <= |src|
    ensures LowerPrefix(src, n).Ok? <==> forall i :: 0 <= i < n ==> Lower(src, i).Ok?
    decreases n
  {
    if n > 0 {
      PrefixOk(src, n - 1);
    }
  }

  /**
   * `convert` succeeds exactly when the program is not empty, ends with
   * `RET`, and every `JMPNE` has a depth that fits a `u16` and a backward
   * target whose displacement fits an `i16`.
   */
  lemma TranslateOk(src: seq<Bytecode>)
    ensures Translate(src).Ok? <==>
      && |src| > 0
      && src[|src| - 1].opcode == RET
      && forall i :: 0 <= i < |src| && src[i].opcode == JMPNE ==> BranchOk(src, i)
  {
    if |src| > 0 && src[|src| - 1].opcode == RET {
      PrefixOk(src, |src|);
      forall i | 0 <= i < |src| {
        LowerOk(src, i);
      }
    }
  }

  /** When conversion fails at a `JMPNE`, the error names the first instruction that fails. */
  lemma TranslateFirstError(src: seq<Bytecode>, i: nat)
    requires |src| > 0 && src[|src| - 1].opcode == RET
    requires i < |src| && Lower(src, i).Err?
    requires forall j :: 0 <= j < i ==> Lower(src, j).Ok?
    ensures Translate(src) == Err(Lower(src, i).error)
    ensures src[i].opcode == JMPNE && Lower(src, i).error.index == i
  {
    PrefixOk(src, i);
    FailsAt(src, i);
  }

  // ---- The layout of a successful conversion.

  lemma {:induction false} PrefixSize(src: seq<Bytecode>, n: nat)
    requires n <= |src| && LowerPrefix(src, n).Ok?
    ensures |LowerPrefix(src, n).value| == InsnIndex(src, n)
    ensures TotalSize(LowerPrefix(src, n).value) == SourceOffset(src, n)
    decreases n
  {
    if n > 0 {
      PrefixSize(src, n - 1);
      LowerShape(src, n - 1);
      TotalSizeConcat(LowerPrefix(src, n - 1).value, Lower(src, n - 1).value);
    }
  }

  /** The conversion of a prefix is a prefix of the conversion. */
  lemma {:induction false} PrefixOfPrefix(src: seq<Bytecode>, j: nat, n: nat)
    requires j <= n <= |src| && LowerPrefix(src, n).Ok?
    ensures LowerPrefix(src, j).Ok?
    ensures InsnIndex(src, j) <= |LowerPrefix(src, n).value|
    ensures LowerPrefix(src, j).value == LowerPrefix(src, n).value[..InsnIndex(src, j)]
    decreases n
  {
    PrefixSize(src, n);
    if j < n {
      PrefixOfPrefix(src, j, n - 1);
      PrefixSize(src, n - 1);
      var xs := LowerPrefix(src, n - 1).value;
      assert LowerPrefix(src, n).value == xs + Lower(src, n - 1).value;
      assert LowerPrefix(src, n).value[..InsnIndex(src, j)] == xs[..InsnIndex(src, j)];
    } else {
      assert LowerPrefix(src, n).value[..InsnIndex(src, n)] == LowerPrefix(src, n).value;
    }
  }

  /**
   * In the output of a successful conversion, source instruction `j` starts
   * at byte offset `byte_offsets[j]` (the sum of the source sizes before it)
   * and is lowered to `InsnCount` consecutive instructions starting at index
   * `InsnIndex(src, j)`.
   */
  lemma TranslateLayout(src: seq<Bytecode>, j: nat)
    requires Translate(src).Ok? && j < |src|
    ensures var insns := Translate(src).value;
      && Lower(src, j).Ok?
      && InsnIndex(src, j + 1) <= |insns|
      && Offset(insns, InsnIndex(src, j)) == SourceOffset(src, j)
      && insns[InsnIndex(src, j) .. InsnIndex(src, j + 1)] == Lower(src, j).value
  {
    var insns := Translate(src).value;
    PrefixOfPrefix(src, j, |src|);
    PrefixOfPrefix(src, j + 1, |src|);
    PrefixSize(src, j);
    var xs := LowerPrefix(src, j).value;
    var ys := LowerPrefix(src, j + 1).value;
    assert ys == xs + Lower(src, j).value;
    assert insns[InsnIndex(src, j) .. InsnIndex(src, j + 1)] == ys[InsnIndex(src, j)..];
  }

  /** The output of a successful conversion takes as many bytes as the source sizes add up to. */
  lemma TranslateSize(src: seq<Bytecode>)
    requires Translate(src).Ok?
    ensures |Translate(src).value| == InsnIndex(src, |src|)
    ensures |EncodeAll(Translate(src).value)| == SourceOffset(src, |src|)
  {
    PrefixSize(src, |src|);
  }

  /** The source instruction whose lowering holds internal instruction `k`. */
  ghost function OwnerOf(src: seq<Bytecode>, n: nat, k: nat): (j: nat)
    requires n <= |src| && k < InsnIndex(src, n)
    ensures j < n && InsnIndex(src, j) <= k < InsnIndex(src, j + 1)
    decreases n
  {
    if k >= InsnIndex(src, n - 1) then n - 1 else OwnerOf(src, n - 1, k)
  }

  lemma {:induction false} SourceOffsetMono(src: seq<Bytecode>, i: nat, j: nat)
    requires i <= j <= |src|
    ensures SourceOffset(src, i) <= SourceOffset(src, j)
    decreases j
  {
    if i < j {
      SourceOffsetMono(src, i, j - 1);
    }
  }

  /** Internal instruction `k` of a successful conversion, with the source instruction it comes from. */
  lemma Owner(src: seq<Bytecode>, k: nat) returns (j: nat, insn: Insn)
    requires Translate(src).Ok? && k < |Translate(src).value|
    ensures j < |src| && Lower(src, j).Ok?
    ensures InsnIndex(src, j) <= k < InsnIndex(src, j + 1) <= |Translate(src).value|
    ensures Translate(src).value[InsnIndex(src, j) .. InsnIndex(src, j + 1)] == Lower(src, j).value
    ensures insn == Translate(src).value[k] == Lower(src, j).value[k - InsnIndex(src, j)]
  {
    TranslateSize(src);
    j := OwnerOf(src, |src|, k);
    TranslateLayout(src, j);
    insn := Translate(src).value[k];
  }

  /**
   * Every branch in the output of a successful conversion is backward (at
   * least past the three bytes of the unwind check in front of it), lands on
   * the start of the instruction lowered from the source target, and is
   * preceded by an `OpUnwindIfNeeded` whose depth is one more than the index
   * of the source `JMPNE`.
   */
  lemma TranslateBranch(src: seq<Bytecode>, k: nat) returns (j: nat)
    requires Translate(src).Ok? && k < |Translate(src).value| && Translate(src).value[k].OpJmpNE?
    ensures var insns := Translate(src).value;
      && j < |src| && src[j].opcode == JMPNE && BranchOk(src, j)
      && k == InsnIndex(src, j) + 1
      && insns[k - 1] == OpUnwindIfNeeded((j + 1) as u16)
      && insns[k].target as int <= -3
      && InsnIndex(src, src[j].jmp) < |insns|
      && Offset(insns, k) + insns[k].target as int == Offset(insns, InsnIndex(src, src[j].jmp))
      && IsStart(insns, Offset(insns, k) + insns[k].target as int)
  {
    var insns := Translate(src).value;
    var insn;
    j, insn := Owner(src, k);
    LowerShape(src, j);
    var first := InsnIndex(src, j);
    assert src[j].opcode == JMPNE && k == first + 1;
    LowerOk(src, j);
    var target := src[j].jmp;
    assert insns[first] == insns[first .. first + 2][0] == OpUnwindIfNeeded((j + 1) as u16);
    assert insns[k].target as int == Displacement(src, j, target);
    TranslateLayout(src, j);
    OffsetNext(insns, first);
    assert Offset(insns, k) == SourceOffset(src, j) + 3;
    SourceOffsetMono(src, target, j);
    TranslateLayout(src, target);
    LowerShape(src, target);
    IsStartOffset(insns, InsnIndex(src, target));
  }

  /** Every `OpUnwindIfNeeded` in the output of a successful conversion is followed by its branch. */
  lemma TranslateUnwind(src: seq<Bytecode>, k: nat)
    requires Translate(src).Ok? && k < |Translate(src).value| && Translate(src).value[k].OpUnwindIfNeeded?
    ensures k + 1 < |Translate(src).value| && Translate(src).value[k + 1].OpJmpNE?
  {
    var j, insn := Owner(src, k);
    LowerShape(src, j);
    assert src[j].opcode == JMPNE && k == InsnIndex(src, j);
    assert Translate(src).value[k + 1] == Translate(src).value[k .. k + 2][1];
  }

  /** The output of a successful conversion is a well-formed program the engine can run. */
  lemma TranslateWellFormed(src: seq<Bytecode>)
    requires Translate(src).Ok?
    ensures WellFormed(EncodeAll(Translate(src).value))
  {
    var insns := Translate(src).value;
    assert |insns| > 0 && insns[|insns| - 1] == OpRet by {
      var last := |src| - 1;
      TranslateSize(src);
      TranslateLayout(src, last);
      LowerShape(src, last);
    }
    forall k | 0 <= k < |insns| && insns[k].OpJmpNE?
      ensures IsStart(insns, Offset(insns, k) + insns[k].target as int)
    {
      var _ := TranslateBranch(src, k);
    }
    assert WellFormedInsns(insns);
    ParseEncodeAll(insns);
  }

  /** The landing point of an output branch, with what `GuardedInsns` asks of it. */
  lemma BranchGuarded(src: seq<Bytecode>, k: nat) returns (t: nat)
    requires Translate(src).Ok? && k < |Translate(src).value| && Translate(src).value[k].OpJmpNE?
    ensures var insns := Translate(src).value;
      && 0 < k && insns[k - 1].OpUnwindIfNeeded? && insns[k - 1].depth > 0
      && t < |insns| && !insns[t].OpJmpNE? && Offset(insns, k) + insns[k].target as int == Offset(insns, t)
  {
    var insns := Translate(src).value;
    var j := TranslateBranch(src, k);
    var target: nat := src[j].jmp;
    t := InsnIndex(src, target);
    TranslateLayout(src, target);
    LowerShape(src, target);
    assert insns[t] == insns[t .. InsnIndex(src, target + 1)][0] == Lower(src, target).value[0];
  }

  /**
   * The output of a successful conversion has the guarded shape: every
   * `OpJmpNE` comes straight after its unwind check, of depth `j + 1 >= 1`,
   * and lands on the first instruction lowered from the source target, which
   * is never an `OpJmpNE`.
   */
  lemma TranslateGuarded(src: seq<Bytecode>)
    requires Translate(src).Ok?
    ensures GuardedInsns(Translate(src).value)
  {
    var insns := Translate(src).value;
    assert |insns| > 0 && insns[|insns| - 1] == OpRet by {
      var last := |src| - 1;
      TranslateSize(src);
      TranslateLayout(src, last);
      LowerShape(src, last);
    }
    forall k | 0 <= k < |insns|
      ensures GuardedAt(insns, k)
    {
      if insns[k].OpJmpNE? {
        var t := BranchGuarded(src, k);
      }
    }
  }
}
