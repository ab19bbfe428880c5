/**
 * The internal instruction set: the six opcodes, the packed field layout of
 * each variant, how an instruction is appended to a byte buffer, and how the
 * instruction at a given offset of a byte buffer is read back.
 */
module Instruction {
  import opened Wrappers
  import opened Packed

  /** `#[repr(u8)] enum Opcode`: discriminants 0..5 in declaration order. */
  datatype Opcode = Load | Add | JmpNE | Print | Ret | UnwindIfNeeded

  function OpcodeByte(op: Opcode): u8
  {
    match op
    case Load => 0
    case Add => 1
    case JmpNE => 2
    case Print => 3
    case Ret => 4
    case UnwindIfNeeded => 5
  }

  /**
   * Reading an `Opcode` out of a byte (`Pc::opcode`). A byte that is no
   * discriminant is undefined behaviour in the source; here it is `None`.
   */
  function OpcodeOfByte(b: u8): (r: Option<Opcode>)
    ensures r.Some? <==> b < 6
    ensures r.Some? ==> OpcodeByte(r.value) == b
  {
    if b == 0 then Some(Load)
    else if b == 1 then Some(Add)
    else if b == 2 then Some(JmpNE)
    else if b == 3 then Some(Print)
    else if b == 4 then Some(Ret)
    else if b == 5 then Some(UnwindIfNeeded)
    else None
  }

  /** `mem::size_of` of each packed variant struct. */
  function PayloadSize(op: Opcode): nat
  {
    match op
    case Load => 5
    case Add => 3
    case JmpNE => 4
    case Print => 1
    case Ret => 0
    case UnwindIfNeeded => 2
  }

  /** One decoded instruction: the variant struct with its fields. */
  datatype Insn =
    | OpLoad(result: u8, imm: u32)
    | OpAdd(result: u8, input0: u8, input1: u8)
    | OpJmpNE(input0: u8, input1: u8, target: i16)
    | OpPrint(input: u8)
    | OpRet
    | OpUnwindIfNeeded(depth: u16)
  {
    function Op(): Opcode
    {
      match this
      case OpLoad(_, _) => Load
      case OpAdd(_, _, _) => Add
      case OpJmpNE(_, _, _) => JmpNE
      case OpPrint(_) => Print
      case OpRet => Ret
      case OpUnwindIfNeeded(_) => UnwindIfNeeded
    }

    /** Bytes the instruction occupies: its opcode byte and its payload. */
    function Size(): nat
    {
      1 + PayloadSize(Op())
    }
  }

  /** The packed fields of an instruction, in declaration order. */
  function Payload(insn: Insn): (p: seq<u8>)
    ensures |p| == PayloadSize(insn.Op())
  {
    match insn
    case OpLoad(result, imm) => [result] + EncodeU32(imm)
    case OpAdd(result, input0, input1) => [result, input0, input1]
    case OpJmpNE(input0, input1, target) => [input0, input1] + EncodeI16(target)
    case OpPrint(input) => [input]
    case OpRet => []
    case OpUnwindIfNeeded(depth) => EncodeU16(depth)
  }

  /** The bytes `encode` appends: the opcode byte, then the payload. */
  function Encode(insn: Insn): (bs: seq<u8>)
    ensures |bs| == insn.Size()
    ensures bs[0] == OpcodeByte(insn.Op())
  {
    [OpcodeByte(insn.Op())] + Payload(insn)
  }

  /** Reading the fields of a variant out of the payload bytes that start at `at`. */
  function DecodeFields(op: Opcode, bytes: seq<u8>, at: nat): (insn: Insn)
    requires at + PayloadSize(op) <= |bytes|
    ensures insn.Op() == op
  {
    match op
    case Load => OpLoad(bytes[at], DecodeU32(bytes, at + 1))
    case Add => OpAdd(bytes[at], bytes[at + 1], bytes[at + 2])
    case JmpNE => OpJmpNE(bytes[at], bytes[at + 1], DecodeI16(bytes, at + 2))
    case Print => OpPrint(bytes[at])
    case Ret => OpRet
    case UnwindIfNeeded => OpUnwindIfNeeded(DecodeU16(bytes, at))
  }

  /**
   * The instruction whose opcode byte is at offset `pc` (`Pc::visit`: the
   * opcode is read at `pc` and the fields from `pc + 1`). Where the source
   * would read an invalid discriminant or past the end, the result is `None`.
   */
  function Decode(bytes: seq<u8>, pc: nat): (r: Option<Insn>)
    ensures r.Some? ==> pc + r.value.Size() <= |bytes|
    ensures r.Some? ==> OpcodeByte(r.value.Op()) == bytes[pc]
  {
    if pc >= |bytes| then None
    else match OpcodeOfByte(bytes[pc])
      case None => None
      case Some(op) =>
        if pc + 1 + PayloadSize(op) > |bytes| then None
        else Some(DecodeFields(op, bytes, pc + 1))
  }

  /** Fields read back from an instruction's packed payload are its fields. */
  lemma DecodeFieldsOfPayload(insn: Insn, bytes: seq<u8>, at: nat)
    requires at + PayloadSize(insn.Op()) <= |bytes|
    requires bytes[at .. at + PayloadSize(insn.Op())] == Payload(insn)
    ensures DecodeFields(insn.Op(), bytes, at) == insn
  {
    var p := Payload(insn);
    var q := bytes[at .. at + |p|];
    assert q == p;
    match insn {
      case OpLoad(result, imm) =>
        var f := EncodeU32(imm);
        assert p == [result] + f;
        assert bytes[at] == q[0] == result;
        assert bytes[at + 1] == q[1] == f[0] && bytes[at + 2] == q[2] == f[1];
        assert bytes[at + 3] == q[3] == f[2] && bytes[at + 4] == q[4] == f[3];
        assert DecodeU32(bytes, at + 1) == DecodeU32(f, 0);
        DecodeEncodeU32(imm);
      case OpAdd(result, input0, input1) =>
        assert bytes[at] == q[0] && bytes[at + 1] == q[1] && bytes[at + 2] == q[2];
      case OpJmpNE(input0, input1, target) =>
        var f := EncodeI16(target);
        assert p == [input0, input1] + f;
        assert bytes[at] == q[0] == input0 && bytes[at + 1] == q[1] == input1;
        assert bytes[at + 2] == q[2] == f[0] && bytes[at + 3] == q[3] == f[1];
        assert DecodeI16(bytes, at + 2) == DecodeI16(f, 0);
        DecodeEncodeI16(target);
      case OpPrint(input) =>
        assert bytes[at] == q[0];
      case OpRet =>
      case OpUnwindIfNeeded(depth) =>
        var f := EncodeU16(depth);
        assert bytes[at] == q[0] == f[0] && bytes[at + 1] == q[1] == f[1];
        assert DecodeU16(bytes, at) == DecodeU16(f, 0);
        DecodeEncodeU16(depth);
    }
  }

  /** Conversely, the payload of the fields read from some bytes is those bytes. */
  lemma PayloadOfDecodeFields(op: Opcode, bytes: seq<u8>, at: nat)
    requires at + PayloadSize(op) <= |bytes|
    ensures Payload(DecodeFields(op, bytes, at)) == bytes[at .. at + PayloadSize(op)]
  {
    match op
    case Load =>
      EncodeDecodeU32(bytes, at + 1);
      assert bytes[at .. at + 5] == [bytes[at]] + bytes[at + 1 .. at + 5];
    case JmpNE =>
      EncodeDecodeI16(bytes, at + 2);
      assert bytes[at .. at + 4] == [bytes[at], bytes[at + 1]] + bytes[at + 2 .. at + 4];
    case UnwindIfNeeded =>
      EncodeDecodeU16(bytes, at);
    case Add =>
      assert bytes[at .. at + 3] == [bytes[at], bytes[at + 1], bytes[at + 2]];
    case Print =>
      assert bytes[at .. at + 1] == [bytes[at]];
    case Ret =>
  }

  /** Decoding at the offset where an instruction was appended gives it back. */
  lemma DecodeEncode(before: seq<u8>, insn: Insn, after: seq<u8>)
    ensures Decode(before + Encode(insn) + after, |before|) == Some(insn)
  {
    var bytes := before + Encode(insn) + after;
    var pc := |before|;
    assert bytes[pc] == OpcodeByte(insn.Op());
    assert bytes[pc + 1 .. pc + insn.Size()] == Payload(insn);
    DecodeFieldsOfPayload(insn, bytes, pc + 1);
  }

  /** Conversely, the bytes an instruction is decoded from are its encoding. */
  lemma EncodeDecode(bytes: seq<u8>, pc: nat)
    requires Decode(bytes, pc).Some?
    ensures bytes[pc .. pc + Decode(bytes, pc).value.Size()] == Encode(Decode(bytes, pc).value)
  {
    var insn := Decode(bytes, pc).value;
    var op := insn.Op();
    assert OpcodeOfByte(bytes[pc]) == Some(op);
    assert insn == DecodeFields(op, bytes, pc + 1);
    PayloadOfDecodeFields(op, bytes, pc + 1);
    assert bytes[pc .. pc + insn.Size()] == [bytes[pc]] + bytes[pc + 1 .. pc + insn.Size()];
  }

  /** The growable byte buffer (`Vec<u8>`) that instructions are encoded into. */
  class ByteVec {
    var bytes: seq<u8>

    constructor ()
      ensures bytes == []
    {
      bytes := [];
    }

    method Push(b: u8)
      modifies this
      ensures bytes == old(bytes) + [b]
    {
      bytes := bytes + [b];
    }

    method ExtendFromSlice(s: seq<u8>)
      modifies this
      ensures bytes == old(bytes) + s
    {
      bytes := bytes + s;
    }
  }

  /**
   * `encode`: push the opcode byte, then extend by the packed fields. The
   * bytes already in the buffer are left as they were.
   */
  method EncodeInto(insn: Insn, v: ByteVec)
    modifies v
    ensures v.bytes == old(v.bytes) + Encode(insn)
    ensures |v.bytes| == |old(v.bytes)| + insn.Size()
    ensures v.bytes[..|old(v.bytes)|] == old(v.bytes)
  {
    v.Push(OpcodeByte(insn.Op()));
    v.ExtendFromSlice(Payload(insn));
  }
}
