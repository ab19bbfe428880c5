/**
 * An `InternalProgram`: instructions laid out back to back in one byte buffer,
 * with no index table. This module gives the layout of a list of instructions,
 * the parse of a buffer back into instructions, the two next-pc operations,
 * the well-formedness the engine relies on, and the disassembly walk.
 */
module Program {
  import opened Wrappers
  import opened Packed
  import opened Instruction

  /** The buffer holding `insns` in order. */
  function EncodeAll(insns: seq<Insn>): (bs: seq<u8>)
    ensures |bs| == TotalSize(insns)
  {
    if insns == [] then [] else Encode(insns[0]) + EncodeAll(insns[1..])
  }

  function TotalSize(insns: seq<Insn>): nat
  {
    if insns == [] then 0 else insns[0].Size() + TotalSize(insns[1..])
  }

  /** The byte offset at which instruction `k` of `insns` starts: the size of those before it. */
  function Offset(insns: seq<Insn>, k: nat): nat
    requires k <= |insns|
  {
    TotalSize(insns[..k])
  }

  /** `off` is the offset at which one of `insns` starts. */
  predicate IsStart(insns: seq<Insn>, off: int)
    decreases |insns|
  {
    insns != [] && 0 <= off && (off == 0 || IsStart(insns[1..], off - insns[0].Size()))
  }

  lemma {:induction false} OffsetTail(insns: seq<Insn>, j: nat)
    requires 0 < j < |insns|
    ensures Offset(insns, j) == insns[0].Size() + Offset(insns[1..], j - 1)
  {
    assert insns[..j][1..] == insns[1..][..j - 1];
  }

  lemma {:induction false} IsStartOffset(insns: seq<Insn>, j: nat)
    requires j < |insns|
    ensures IsStart(insns, Offset(insns, j))
    decreases j
  {
    if j > 0 {
      OffsetTail(insns, j);
      IsStartOffset(insns[1..], j - 1);
    }
  }

  /** The index of the instruction that starts at `off`. */
  ghost function StartIndex(insns: seq<Insn>, off: int): (j: nat)
    requires IsStart(insns, off)
    ensures j < |insns| && Offset(insns, j) == off
    decreases |insns|
  {
    if off == 0 then 0
    else
      var j := 1 + StartIndex(insns[1..], off - insns[0].Size());
      OffsetTail(insns, j);
      j
  }

  /** The instructions of `bytes[pc..]`, or `None` if it does not parse. */
  function ParseFrom(bytes: seq<u8>, pc: nat): Option<seq<Insn>>
    requires pc <= |bytes|
    decreases |bytes| - pc
  {
    if pc == |bytes| then Some([])
    else match Decode(bytes, pc)
      case None => None
      case Some(insn) =>
        match ParseFrom(bytes, pc + insn.Size())
        case None => None
        case Some(rest) => Some([insn] + rest)
  }

  function Parse(bytes: seq<u8>): Option<seq<Insn>>
  {
    ParseFrom(bytes, 0)
  }

  lemma {:induction false} EncodeAllConcat(xs: seq<Insn>, ys: seq<Insn>)
    ensures EncodeAll(xs + ys) == EncodeAll(xs) + EncodeAll(ys)
    decreases |xs|
  {
    if xs == [] {
      assert xs + ys == ys;
    } else {
      var zs := xs + ys;
      assert zs[0] == xs[0] && zs[1..] == xs[1..] + ys;
      EncodeAllConcat(xs[1..], ys);
      calc {
        EncodeAll(zs);
        Encode(xs[0]) + EncodeAll(xs[1..] + ys);
        Encode(xs[0]) + (EncodeAll(xs[1..]) + EncodeAll(ys));
        (Encode(xs[0]) + EncodeAll(xs[1..])) + EncodeAll(ys);
      }
    }
  }

  lemma TotalSizeConcat(xs: seq<Insn>, ys: seq<Insn>)
    ensures TotalSize(xs + ys) == TotalSize(xs) + TotalSize(ys)
  {
    EncodeAllConcat(xs, ys);
  }

  /** Instruction `k` of a laid-out program sits at `Offset(insns, k)`. */
  lemma EncodeAllSplit(insns: seq<Insn>, k: nat)
    requires k < |insns|
    ensures EncodeAll(insns) == EncodeAll(insns[..k]) + Encode(insns[k]) + EncodeAll(insns[k + 1..])
  {
    var tail := insns[k..];
    assert insns == insns[..k] + tail;
    EncodeAllConcat(insns[..k], tail);
    assert tail[0] == insns[k] && tail[1..] == insns[k + 1..];
    assert EncodeAll(tail) == Encode(insns[k]) + EncodeAll(insns[k + 1..]);
  }

  lemma DecodeAtOffset(insns: seq<Insn>, k: nat)
    requires k < |insns|
    ensures Decode(EncodeAll(insns), Offset(insns, k)) == Some(insns[k])
  {
    EncodeAllSplit(insns, k);
    DecodeEncode(EncodeAll(insns[..k]), insns[k], EncodeAll(insns[k + 1..]));
  }

  /** Consecutive instructions: the next one starts where this one ends. */
  lemma OffsetNext(insns: seq<Insn>, k: nat)
    requires k < |insns|
    ensures Offset(insns, k) + insns[k].Size() == if k + 1 < |insns| then Offset(insns, k + 1) else TotalSize(insns)
  {
    assert insns[..k + 1] == insns[..k] + [insns[k]];
    TotalSizeConcat(insns[..k], [insns[k]]);
    assert TotalSize([insns[k]]) == insns[k].Size() by {
      assert [insns[k]][1..] == [];
    }
    if k + 1 == |insns| {
      assert insns[..k + 1] == insns;
    }
  }

  /** An instruction at `pc` followed by a buffer that parses: the buffer parses from `pc`. */
  lemma ParseFromStep(bytes: seq<u8>, pc: nat, insn: Insn, rest: seq<Insn>)
    requires pc < |bytes| && Decode(bytes, pc) == Some(insn)
    requires pc + insn.Size() <= |bytes| && ParseFrom(bytes, pc + insn.Size()) == Some(rest)
    ensures ParseFrom(bytes, pc) == Some([insn] + rest)
  {
  }

  lemma {:induction false} ParseFromEncodeAll(before: seq<u8>, insns: seq<Insn>)
    ensures ParseFrom(before + EncodeAll(insns), |before|) == Some(insns)
    decreases |insns|
  {
    var bytes := before + EncodeAll(insns);
    if insns == [] {
      assert bytes == before;
    } else {
      var front := before + Encode(insns[0]);
      var rest := EncodeAll(insns[1..]);
      assert bytes == front + rest;
      DecodeEncode(before, insns[0], rest);
      ParseFromEncodeAll(front, insns[1..]);
      ParseFromStep(bytes, |before|, insns[0], insns[1..]);
      assert [insns[0]] + insns[1..] == insns;
    }
  }

  /** Parsing a laid-out program gives back its instructions. */
  lemma ParseEncodeAll(insns: seq<Insn>)
    ensures Parse(EncodeAll(insns)) == Some(insns)
  {
    ParseFromEncodeAll([], insns);
    assert [] + EncodeAll(insns) == EncodeAll(insns);
  }

  /** A buffer that parses from `pc` holds an instruction there, followed by a buffer that parses. */
  lemma ParseFromCons(bytes: seq<u8>, pc: nat)
    requires pc < |bytes| && ParseFrom(bytes, pc).Some?
    ensures Decode(bytes, pc).Some?
    ensures var next := pc + Decode(bytes, pc).value.Size();
      && next <= |bytes| && ParseFrom(bytes, next).Some?
      && ParseFrom(bytes, pc).value == [Decode(bytes, pc).value] + ParseFrom(bytes, next).value
  {
  }

  lemma {:induction false} EncodeAllParseFrom(bytes: seq<u8>, pc: nat)
    requires pc <= |bytes| && ParseFrom(bytes, pc).Some?
    ensures bytes[pc..] == EncodeAll(ParseFrom(bytes, pc).value)
    decreases |bytes| - pc
  {
    if pc < |bytes| {
      ParseFromCons(bytes, pc);
      var insn := Decode(bytes, pc).value;
      var next := pc + insn.Size();
      var insns := ParseFrom(bytes, pc).value;
      var rest := ParseFrom(bytes, next).value;
      assert EncodeAll(insns) == Encode(insn) + EncodeAll(rest) by {
        assert insns[0] == insn && insns[1..] == rest;
      }
      EncodeDecode(bytes, pc);
      EncodeAllParseFrom(bytes, next);
      assert bytes[pc..] == bytes[pc .. next] + bytes[next..];
    }
  }

  /** A buffer that parses is exactly the layout of what it parses to. */
  lemma EncodeAllParse(bytes: seq<u8>)
    requires Parse(bytes).Some?
    ensures bytes == EncodeAll(Parse(bytes).value)
  {
    EncodeAllParseFrom(bytes, 0);
    assert bytes[0..] == bytes;
  }

  /**
   * `NextPcUnchecked`: the offset just past the instruction at `pc`. Its
   * safety condition is that `pc` holds an instruction.
   */
  function NextPcUnchecked(bytes: seq<u8>, pc: nat): (next: nat)
    requires Decode(bytes, pc).Some?
    ensures pc < next <= |bytes|
  {
    pc + 1 + PayloadSize(Decode(bytes, pc).value.Op())
  }

  /** `NextPcChecked`: as above, but `None` once the end of the buffer is reached. */
  function NextPcChecked(bytes: seq<u8>, pc: nat): (next: Option<nat>)
    requires Decode(bytes, pc).Some?
    ensures next.Some? ==> pc < next.value < |bytes|
    ensures next.None? <==> pc + Decode(bytes, pc).value.Size() == |bytes|
  {
    var advanced := NextPcUnchecked(bytes, pc);
    if advanced == |bytes| then None else Some(advanced)
  }

  /**
   * Walking a parsed buffer: at the start of instruction `k` the next-pc
   * operations give the start of instruction `k + 1`, and the checked one
   * reports the end exactly after the last instruction.
   */
  lemma NextPcWalk(bytes: seq<u8>, k: nat)
    requires Parse(bytes).Some? && k < |Parse(bytes).value|
    ensures var insns := Parse(bytes).value;
      var pc := Offset(insns, k);
      && Decode(bytes, pc) == Some(insns[k])
      && NextPcUnchecked(bytes, pc) == (if k + 1 < |insns| then Offset(insns, k + 1) else |bytes|)
      && NextPcChecked(bytes, pc) == (if k + 1 < |insns| then Some(Offset(insns, k + 1)) else None)
  {
    var insns := Parse(bytes).value;
    EncodeAllParse(bytes);
    DecodeAtOffset(insns, k);
    OffsetNext(insns, k);
    if k + 1 < |insns| {
      DecodeAtOffset(insns, k + 1);
    }
  }

  /**
   * What the engine needs of a buffer: it parses, it is not empty, it ends
   * with `OpRet` (so every other instruction, `OpUnwindIfNeeded` included, is
   * followed by another and the unchecked next-pc stays inside the buffer),
   * and every branch lands at the start of an instruction.
   */
  predicate WellFormedInsns(insns: seq<Insn>)
  {
    && |insns| > 0
    && insns[|insns| - 1] == OpRet
    && (forall k :: 0 <= k < |insns| && insns[k].OpJmpNE? ==> IsStart(insns, Offset(insns, k) + insns[k].target as int))
  }

  /**
   * The shape the converter gives a program, on which a chain of steps stays
   * short: it ends with `OpRet`, and every instruction is guarded.
   */
  predicate GuardedInsns(insns: seq<Insn>)
  {
    && |insns| > 0
    && insns[|insns| - 1] == OpRet
    && (forall k :: 0 <= k < |insns| ==> GuardedAt(insns, k))
  }

  /**
   * Instruction `k` is guarded: if it is an `OpJmpNE`, it comes straight
   * after an `OpUnwindIfNeeded` of depth at least 1 and branches to an
   * instruction that is not itself an `OpJmpNE` (so control reaches an
   * `OpJmpNE` only through its unwind check).
   */
  predicate GuardedAt(insns: seq<Insn>, k: nat)
    requires k < |insns|
  {
    insns[k].OpJmpNE? ==>
      && 0 < k && insns[k - 1].OpUnwindIfNeeded? && insns[k - 1].depth > 0
      && exists t :: 0 <= t < |insns| && !insns[t].OpJmpNE? && Offset(insns, k) + insns[k].target as int == Offset(insns, t)
  }

  predicate WellFormed(bytes: seq<u8>)
  {
    Parse(bytes).Some? && WellFormedInsns(Parse(bytes).value)
  }

  /**
   * In a well-formed program, the start of each instruction holds that
   * instruction, every instruction but the final `OpRet` is followed by
   * another, and every branch target is the start of an instruction.
   */
  lemma Successors(bytes: seq<u8>, k: nat)
    requires WellFormed(bytes) && k < |Parse(bytes).value|
    ensures var insns := Parse(bytes).value;
      var pc := Offset(insns, k);
      && Decode(bytes, pc) == Some(insns[k])
      && (!insns[k].OpRet? ==> k + 1 < |insns| && pc + insns[k].Size() == Offset(insns, k + 1))
      && (insns[k].OpJmpNE? ==> IsStart(insns, pc + insns[k].target as int))
  {
    NextPcWalk(bytes, k);
  }

  /** The offsets at which the instructions of `insns` start. */
  function Starts(insns: seq<Insn>): set<int>
  {
    set k | 0 <= k < |insns| :: Offset(insns, k)
  }

  /** The instruction `insn` at `pc` hands control only to offsets in `starts`. */
  predicate FlowsInto(pc: int, insn: Insn, starts: set<int>)
  {
    && (!insn.OpRet? ==> pc + insn.Size() in starts)
    && (insn.OpJmpNE? ==> pc + insn.target as int in starts)
  }

  /**
   * `starts` is closed under control flow: each of its offsets holds an
   * instruction, and that instruction hands control only to its offsets.
   */
  ghost predicate Closed(bytes: seq<u8>, starts: set<int>)
  {
    forall pc {:trigger Decode(bytes, pc)} ::
      pc in starts ==> 0 <= pc && Decode(bytes, pc).Some? && FlowsInto(pc, Decode(bytes, pc).value, starts)
  }

  lemma ClosedAt(bytes: seq<u8>, starts: set<int>, pc: int)
    requires Closed(bytes, starts) && pc in starts
    ensures 0 <= pc && Decode(bytes, pc).Some? && FlowsInto(pc, Decode(bytes, pc).value, starts)
  {
  }

  /** In a well-formed program, instruction `k` hands control only to instruction starts. */
  lemma StartFlows(bytes: seq<u8>, k: nat)
    requires WellFormed(bytes) && k < |Parse(bytes).value|
    ensures var insns := Parse(bytes).value;
      var pc := Offset(insns, k);
      Decode(bytes, pc).Some? && FlowsInto(pc, Decode(bytes, pc).value, Starts(insns))
  {
    var insns := Parse(bytes).value;
    var pc := Offset(insns, k);
    Successors(bytes, k);
    if insns[k].OpJmpNE? {
      var j := StartIndex(insns, pc + insns[k].target as int);
      assert Offset(insns, j) in Starts(insns);
    }
    if !insns[k].OpRet? {
      assert Offset(insns, k + 1) in Starts(insns);
    }
  }

  /** The instruction starts of a well-formed program are closed under control flow, and include 0. */
  lemma WellFormedClosed(bytes: seq<u8>)
    requires WellFormed(bytes)
    ensures Closed(bytes, Starts(Parse(bytes).value))
    ensures 0 in Starts(Parse(bytes).value)
  {
    var insns := Parse(bytes).value;
    var starts := Starts(insns);
    forall pc | pc in starts
      ensures 0 <= pc && Decode(bytes, pc).Some? && FlowsInto(pc, Decode(bytes, pc).value, starts)
    {
      var k :| 0 <= k < |insns| && Offset(insns, k) == pc;
      StartFlows(bytes, k);
    }
    assert Offset(insns, 0) in starts;
  }

  /**
   * The disassembly walk of `Display for InternalProgram`: from offset 0,
   * list the instruction at `pc` with its offset, stop when the checked
   * next-pc reports the end, otherwise advance. It lists every instruction
   * once, in order, each with the offset it starts at.
   */
  method Disassemble(bytes: seq<u8>) returns (listing: seq<(nat, Insn)>)
    requires Parse(bytes).Some? && |Parse(bytes).value| > 0
    ensures var insns := Parse(bytes).value;
      && |listing| == |insns|
      && forall k :: 0 <= k < |insns| ==> listing[k] == (Offset(insns, k), insns[k])
  {
    ghost var insns := Parse(bytes).value;
    ghost var k := 0;
    var pc: nat := 0;
    listing := [];
    while true
      invariant k < |insns| && pc == Offset(insns, k)
      invariant |listing| == k
      invariant forall j :: 0 <= j < k ==> listing[j] == (Offset(insns, j), insns[j])
      decreases |bytes| - pc
    {
      NextPcWalk(bytes, k);
      var insn := Decode(bytes, pc).value;
      listing := listing + [(pc, insn)];
      var next := NextPcChecked(bytes, pc);
      if next.None? {
        break;
      }
      OffsetNext(insns, k);
      pc := next.value;
      k := k + 1;
    }
  }
}
