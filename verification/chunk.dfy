/** The bytecode chunk (CsLox/Chunk.cs): a growable byte buffer, its pool of
    constants, and the disassembler that walks the buffer instruction by
    instruction. */
module Chunks {
  import opened Wrappers
  import opened Values

  newtype byte = x: int | 0 <= x < 256

  /** The opcodes of this stage. Their byte values follow the declaration
      order, so a zero byte is OpConstant. */
  datatype OpCode = OpConstant | OpReturn

  function OpByte(op: OpCode): byte {
    match op
    case OpConstant => 0
    case OpReturn => 1
  }

  /** The opcode a byte stands for, or None for a byte no opcode has. */
  function DecodeOp(b: byte): (r: Option<OpCode>)
    ensures r.Some? ==> OpByte(r.value) == b
    ensures r.None? ==> forall op :: OpByte(op) != b
  {
    if b == 0 then Some(OpConstant) else if b == 1 then Some(OpReturn) else None
  }

  // ---------------------------------------------------------------------
  // The buffer
  // ---------------------------------------------------------------------

  const InitialCapacity: nat := 8

  /** A chunk: the whole byte buffer (its length is the capacity), how many of
      its bytes have been written, and the constant pool. */
  datatype Chunk = Chunk(code: seq<byte>, count: nat, constants: seq<Value>) {
    function Capacity(): nat { |code| }
  }

  /** The capacities the buffer can have: the initial one, doubled any number
      of times. */
  predicate IsGrownCapacity(n: nat)
    decreases n
  {
    n == InitialCapacity || (InitialCapacity < n && n % 2 == 0 && IsGrownCapacity(n / 2))
  }

  /** The chunk's invariant: the capacity is the initial one doubled some
      number of times, the written bytes fit, and every byte past them is
      still zero. */
  predicate Valid(c: Chunk) {
    && IsGrownCapacity(c.Capacity())
    && c.count <= c.Capacity()
    && forall i :: c.count <= i < |c.code| ==> c.code[i] == 0
  }

  lemma GrownCapacityIsLarge(n: nat)
    requires IsGrownCapacity(n)
    ensures InitialCapacity <= n
  {
  }

  /** The bytes written so far. */
  function Written(c: Chunk): seq<byte>
    requires c.count <= |c.code|
  {
    c.code[..c.count]
  }

  function Zeros(n: nat): (z: seq<byte>)
    ensures |z| == n && forall i :: 0 <= i < n ==> z[i] == 0
  {
    seq(n, _ => 0)
  }

  /** A new chunk: eight zero bytes, none written, no constants. */
  function NewChunk(): (c: Chunk)
    ensures Valid(c) && Written(c) == [] && c.constants == []
    ensures c.Capacity() == InitialCapacity
  {
    Chunk(Zeros(InitialCapacity), 0, [])
  }

  /** write: appends one byte. When the buffer is full it first moves to a
      buffer of twice the size holding the old bytes. */
  function Write(c: Chunk, b: byte): (r: Chunk)
    requires Valid(c)
    ensures Valid(r)
    ensures Written(r) == Written(c) + [b]
    ensures r.constants == c.constants
    ensures r.Capacity() != c.Capacity() <==> c.count == c.Capacity()
    ensures r.Capacity() == c.Capacity() || r.Capacity() == 2 * c.Capacity()
  {
    GrownCapacityIsLarge(c.Capacity());
    var code := if c.Capacity() < c.count + 1 then c.code + Zeros(c.Capacity()) else c.code;
    assert IsGrownCapacity(|code|) by {
      if |code| != |c.code| {
        assert |code| / 2 == |c.code|;
      }
    }
    var r := Chunk(code[c.count := b], c.count + 1, c.constants);
    assert Written(r) == Written(c) + [b] by {
      assert forall i :: 0 <= i < c.count ==> code[i] == c.code[i];
    }
    r
  }

  /** write(OpCode): writes the opcode's byte. */
  function WriteOp(c: Chunk, op: OpCode): (r: Chunk)
    requires Valid(c)
    ensures Valid(r) && r.constants == c.constants
    ensures Written(r) == Written(c) + [OpByte(op)]
  {
    Write(c, OpByte(op))
  }

  /** Writes the bytes one after another. */
  function WriteAll(c: Chunk, bytes: seq<byte>): (r: Chunk)
    requires Valid(c)
    ensures Valid(r) && r.constants == c.constants
    ensures Written(r) == Written(c) + bytes
    decreases |bytes|
  {
    if bytes == [] then c
    else
      var r := WriteAll(Write(c, bytes[0]), bytes[1..]);
      assert [bytes[0]] + bytes[1..] == bytes;
      r
  }

  /** addConstant: appends a value to the pool and returns its index. */
  function AddConstant(c: Chunk, v: Value): (r: (Chunk, nat))
    ensures r.0.code == c.code && r.0.count == c.count
    ensures r.0.constants == c.constants + [v]
    ensures r.1 == |c.constants| && r.0.constants[r.1] == v
  {
    (c.(constants := c.constants + [v]), |c.constants|)
  }

  // ---------------------------------------------------------------------
  // Instructions and their encoding
  // ---------------------------------------------------------------------

  /** The instructions of this stage. */
  datatype Instruction = Return | Constant(index: byte)

  function EncodeOne(ins: Instruction): (bs: seq<byte>)
    ensures 1 <= |bs| <= 2 && DecodeOp(bs[0]) == Some(if ins.Return? then OpReturn else OpConstant)
  {
    match ins
    case Return => [OpByte(OpReturn)]
    case Constant(k) => [OpByte(OpConstant), k]
  }

  /** The bytes of a sequence of instructions. */
  function Encode(prog: seq<Instruction>): (bs: seq<byte>)
    ensures prog == [] <==> bs == []
  {
    if prog == [] then [] else EncodeOne(prog[0]) + Encode(prog[1..])
  }

  /** Every constant index of the program names a constant of the pool. */
  predicate IndicesInRange(prog: seq<Instruction>, constants: seq<Value>) {
    forall i :: 0 <= i < |prog| && prog[i].Constant? ==> (prog[i].index as int) < |constants|
  }

  // ---------------------------------------------------------------------
  // The disassembler
  // ---------------------------------------------------------------------

  /** What reading the buffer or the pool out of range throws. */
  datatype Fault = CodeIndexOutOfRange | ConstantIndexOutOfRange

  /** One line of a listing: the offset and what is printed for it. The
      decimal and culture-dependent text itself is not modelled. */
  datatype Line =
    | ReturnLine(offset: nat)
    | ConstantLine(offset: nat, index: byte, value: Value)
    | UnknownLine(offset: nat, opcode: byte)

  /** A decoded instruction: its line and the offset of the next one. */
  datatype Decoded = Decoded(line: Line, next: nat)

  /** disassembleInstruction: decodes the instruction at offset. A constant
      instruction reads its operand and the constant it names, either of which
      may lie out of range; it faults exactly then, or when offset itself lies
      past the buffer. */
  function DisassembleInstruction(c: Chunk, offset: nat): (r: Result<Decoded, Fault>)
    ensures r.Success? ==> offset < |c.code| && r.value.line.offset == offset
    ensures r.Success? ==>
      r.value.next == offset + (if DecodeOp(c.code[offset]) == Some(OpConstant) then 2 else 1)
    ensures r.Success? ==> (r.value.line.ReturnLine? <==> DecodeOp(c.code[offset]) == Some(OpReturn))
    ensures r.Success? && r.value.line.ConstantLine? ==>
      && (r.value.line.index as int) < |c.constants|
      && r.value.line.value == c.constants[r.value.line.index]
    ensures r.Success? && DecodeOp(c.code[offset]) == Some(OpConstant) ==>
      && offset + 1 < |c.code| && (c.code[offset + 1] as int) < |c.constants|
      && r.value.line == ConstantLine(offset, c.code[offset + 1], c.constants[c.code[offset + 1]])
    ensures r.Success? && DecodeOp(c.code[offset]).None? ==>
      r.value.line == UnknownLine(offset, c.code[offset])
    ensures r == Failure(CodeIndexOutOfRange) <==>
      || |c.code| <= offset
      || (DecodeOp(c.code[offset]) == Some(OpConstant) && |c.code| <= offset + 1)
    ensures r == Failure(ConstantIndexOutOfRange) <==>
      && offset + 1 < |c.code| && DecodeOp(c.code[offset]) == Some(OpConstant)
      && |c.constants| <= c.code[offset + 1] as int
  {
    if |c.code| <= offset then Failure(CodeIndexOutOfRange)
    else
      match DecodeOp(c.code[offset])
      case Some(OpReturn) => Success(Decoded(ReturnLine(offset), offset + 1))
      case Some(OpConstant) =>
        if |c.code| <= offset + 1 then Failure(CodeIndexOutOfRange)
        else
          var k := c.code[offset + 1];
          if |c.constants| <= k as int then Failure(ConstantIndexOutOfRange)
          else Success(Decoded(ConstantLine(offset, k, c.constants[k]), offset + 2))
      case None => Success(Decoded(UnknownLine(offset, c.code[offset]), offset + 1))
  }

  /** The listing disassemble prints: a title, the lines, and the fault that
      cut it short, if any. */
  datatype Listing = Listing(title: string, lines: seq<Line>, fault: Option<Fault>)

  /** Where the walk that listed lines from offset goes next: offset itself
      when nothing was listed, and otherwise the offset after the last line. */
  ghost function WalkEnd(c: Chunk, offset: nat, lines: seq<Line>): nat
    requires forall i :: 0 <= i < |lines| ==> DisassembleInstruction(c, lines[i].offset).Success?
  {
    if lines == [] then offset else DisassembleInstruction(c, lines[|lines| - 1].offset).value.next
  }

  /** lines and fault are the instruction-by-instruction walk from offset: the
      first line is at offset, each line is what disassembleInstruction
      decodes at its offset, each next line sits where the previous one
      says the next instruction starts, and the walk ends at the written
      count or with the fault met at the following offset. */
  ghost predicate IsWalk(c: Chunk, offset: nat, lines: seq<Line>, fault: Option<Fault>) {
    && (forall i :: 0 <= i < |lines| ==>
          && lines[i].offset < c.count
          && DisassembleInstruction(c, lines[i].offset).Success?
          && DisassembleInstruction(c, lines[i].offset).value.line == lines[i])
    && (0 < |lines| ==> lines[0].offset == offset)
    && (forall i :: 0 < i < |lines| ==>
          lines[i].offset == DisassembleInstruction(c, lines[i - 1].offset).value.next)
    && (fault.None? ==> c.count <= WalkEnd(c, offset, lines))
    && (fault.Some? ==>
          && WalkEnd(c, offset, lines) < c.count
          && DisassembleInstruction(c, WalkEnd(c, offset, lines)) == Failure(fault.value))
  }

  /** The offset walk of disassemble from offset up to the written count. */
  function DisassembleFrom(c: Chunk, offset: nat): (r: (seq<Line>, Option<Fault>))
    ensures forall i :: 0 <= i < |r.0| ==> offset <= r.0[i].offset < c.count
    ensures forall i, j :: 0 <= i < j < |r.0| ==> r.0[i].offset < r.0[j].offset
    ensures offset < c.count && r.1.None? ==> 0 < |r.0| && r.0[0].offset == offset
    decreases c.count - offset
  {
    if c.count <= offset then ([], None)
    else
      match DisassembleInstruction(c, offset)
      case Failure(f) => ([], Some(f))
      case Success(d) =>
        var rest := DisassembleFrom(c, d.next);
        ([d.line] + rest.0, rest.1)
  }

  /** The walk from offset is IsWalk: it decodes each instruction in turn
      until the written count or a fault. */
  lemma {:induction false} DisassembleFromIsWalk(c: Chunk, offset: nat)
    ensures IsWalk(c, offset, DisassembleFrom(c, offset).0, DisassembleFrom(c, offset).1)
    decreases c.count - offset
  {
    if offset < c.count {
      match DisassembleInstruction(c, offset)
      case Failure(f) =>
        assert DisassembleFrom(c, offset) == ([], Some(f));
      case Success(d) =>
        DisassembleFromIsWalk(c, d.next);
        var rest := DisassembleFrom(c, d.next);
        WalkCons(c, offset, d, rest.0, rest.1);
        assert DisassembleFrom(c, offset) == ([d.line] + rest.0, rest.1);
    }
  }

  /** A walk from the offset after a decoded instruction, preceded by that
      instruction's line, is a walk from the instruction's offset. */
  lemma WalkCons(c: Chunk, offset: nat, d: Decoded, lines: seq<Line>, fault: Option<Fault>)
    requires offset < c.count && DisassembleInstruction(c, offset) == Success(d)
    requires IsWalk(c, d.next, lines, fault)
    ensures IsWalk(c, offset, [d.line] + lines, fault)
  {
    var all := [d.line] + lines;
    assert forall i :: 0 < i < |all| ==> all[i] == lines[i - 1];
    assert WalkEnd(c, offset, all) == WalkEnd(c, d.next, lines);
  }

  /** IsWalk pins the walk down: any lines and fault it accepts are the ones
      the disassembler produces. */
  lemma {:induction false} WalkIsUnique(c: Chunk, offset: nat, lines: seq<Line>, fault: Option<Fault>)
    requires IsWalk(c, offset, lines, fault)
    ensures DisassembleFrom(c, offset) == (lines, fault)
    decreases |lines|
  {
    if lines == [] {
      assert WalkEnd(c, offset, lines) == offset;
    } else {
      var d := DisassembleInstruction(c, offset).value;
      var tail := lines[1..];
      assert lines[0].offset == offset && d.line == lines[0];
      assert forall i :: 0 <= i < |tail| ==> tail[i] == lines[i + 1];
      assert 0 < |tail| ==> tail[0].offset == d.next;
      assert WalkEnd(c, d.next, tail) == WalkEnd(c, offset, lines);
      assert IsWalk(c, d.next, tail, fault);
      WalkIsUnique(c, d.next, tail, fault);
      assert lines == [d.line] + tail;
    }
  }

  /** disassemble: the titled listing of the written bytes. */
  function Disassemble(c: Chunk, name: string): (l: Listing)
    ensures l.title == name
    ensures IsWalk(c, 0, l.lines, l.fault)
    ensures forall i :: 0 <= i < |l.lines| ==> l.lines[i].offset < c.count
    ensures forall i, j :: 0 <= i < j < |l.lines| ==> l.lines[i].offset < l.lines[j].offset
    ensures 0 < c.count && l.fault.None? ==> 0 < |l.lines| && l.lines[0].offset == 0
  {
    var (lines, fault) := DisassembleFrom(c, 0);
    DisassembleFromIsWalk(c, 0);
    Listing(name, lines, fault)
  }

  /** The line the disassembler prints for an instruction at offset. */
  function LineOf(ins: Instruction, offset: nat, constants: seq<Value>): Line
    requires ins.Constant? ==> (ins.index as int) < |constants|
  {
    match ins
    case Return => ReturnLine(offset)
    case Constant(k) => ConstantLine(offset, k, constants[k])
  }

  /** The listing of an encoded program whose first instruction sits at offset. */
  function ListingOf(prog: seq<Instruction>, offset: nat, constants: seq<Value>): seq<Line>
    requires IndicesInRange(prog, constants)
  {
    if prog == [] then []
    else [LineOf(prog[0], offset, constants)] + ListingOf(prog[1..], offset + |EncodeOne(prog[0])|, constants)
  }

  /** Decoding an encoded instruction gives back the instruction. */
  lemma DisassembleEncodedOne(c: Chunk, offset: nat, ins: Instruction)
    requires offset + |EncodeOne(ins)| <= |c.code|
    requires c.code[offset..offset + |EncodeOne(ins)|] == EncodeOne(ins)
    requires ins.Constant? ==> (ins.index as int) < |c.constants|
    ensures DisassembleInstruction(c, offset)
      == Success(Decoded(LineOf(ins, offset, c.constants), offset + |EncodeOne(ins)|))
  {
    assert c.code[offset] == EncodeOne(ins)[0];
    if ins.Constant? {
      assert c.code[offset + 1] == EncodeOne(ins)[1];
    }
  }

  /** A slice that spells head + tail splits into a slice spelling head and
      one spelling tail. */
  lemma SliceSplit(s: seq<byte>, a: nat, b: nat, head: seq<byte>, tail: seq<byte>)
    requires a + |head| + |tail| == b <= |s| && s[a..b] == head + tail
    ensures s[a..a + |head|] == head && s[a + |head|..b] == tail
  {
    forall i | 0 <= i < |head|
      ensures s[a..a + |head|][i] == head[i]
    {
      assert s[a + i] == (head + tail)[i];
    }
    forall i | 0 <= i < |tail|
      ensures s[a + |head|..b][i] == tail[i]
    {
      assert s[a + |head| + i] == s[a..b][|head| + i];
    }
  }

  /** The disassembler is the inverse of the encoding: on the bytes of a
      program it lists exactly the program's instructions, with no fault. */
  lemma {:induction false} DisassembleEncoded(c: Chunk, offset: nat, prog: seq<Instruction>)
    requires Valid(c) && IndicesInRange(prog, c.constants)
    requires offset + |Encode(prog)| == c.count
    requires c.code[offset..c.count] == Encode(prog)
    ensures DisassembleFrom(c, offset) == (ListingOf(prog, offset, c.constants), None)
    decreases prog
  {
    if prog != [] {
      var head := EncodeOne(prog[0]);
      var next := offset + |head|;
      assert Encode(prog) == head + Encode(prog[1..]);
      SliceSplit(c.code, offset, c.count, head, Encode(prog[1..]));
      DisassembleEncodedOne(c, offset, prog[0]);
      assert IndicesInRange(prog[1..], c.constants) by {
        forall i | 0 <= i < |prog[1..]| && prog[1..][i].Constant?
          ensures (prog[1..][i].index as int) < |c.constants|
        {
          assert prog[1..][i] == prog[i + 1];
        }
      }
      DisassembleEncoded(c, next, prog[1..]);
    }
  }

  /** A chunk built by writing a program's bytes into a new chunk with a pool
      that covers its indices disassembles to exactly that program. */
  lemma DisassembleWrittenProgram(prog: seq<Instruction>, constants: seq<Value>, name: string)
    requires IndicesInRange(prog, constants)
    ensures var c := WriteAll(NewChunk().(constants := constants), Encode(prog));
      Disassemble(c, name) == Listing(name, ListingOf(prog, 0, constants), None)
  {
    var c := WriteAll(NewChunk().(constants := constants), Encode(prog));
    assert c.code[0..c.count] == Written(c);
    DisassembleEncoded(c, 0, prog);
  }
}
