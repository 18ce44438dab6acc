/** The virtual machine's dispatch loop (CsLox/VM.cs): from offset 0 it reads
    an opcode, prints the constant an OpConstant names, stops at OpReturn and
    steps over any other byte. It runs over the whole byte buffer of the chunk,
    so past the written bytes it meets the zero bytes of the spare capacity,
    which read as OpConstant 0. Reading past the buffer or the pool throws. */
module Machine {
  import opened Wrappers
  import opened Values
  import opened Chunks

  datatype InterpretResult = InterpretOk | InterpretCompileError | InterpretRuntimeError

  /** The machine: the chunk it runs and the instruction pointer. */
  datatype Vm = Vm(chunk: Chunk, ip: nat)

  /** How interpret ends: it returns a result, or an exception escapes it.
      Either way output holds the values printed so far, in order. */
  datatype Outcome =
    | Finished(result: InterpretResult, output: seq<Value>)
    | Threw(fault: Fault, output: seq<Value>)

  /** ReadByte: the byte at ip, moving ip past it. */
  function ReadByte(vm: Vm): (r: Result<(byte, Vm), Fault>)
    ensures r.Success? <==> vm.ip < |vm.chunk.code|
    ensures r.Success? ==> r.value.0 == vm.chunk.code[vm.ip] && r.value.1 == vm.(ip := vm.ip + 1)
    ensures r.Failure? ==> r.error == CodeIndexOutOfRange
  {
    if vm.ip < |vm.chunk.code| then Success((vm.chunk.code[vm.ip], vm.(ip := vm.ip + 1)))
    else Failure(CodeIndexOutOfRange)
  }

  /** ReadConstant: the constant the byte at ip names, moving ip past it. */
  function ReadConstant(vm: Vm): (r: Result<(Value, Vm), Fault>)
    ensures r.Success? <==>
      vm.ip < |vm.chunk.code| && (vm.chunk.code[vm.ip] as int) < |vm.chunk.constants|
    ensures r.Success? ==>
      r.value.0 == vm.chunk.constants[vm.chunk.code[vm.ip]] && r.value.1 == vm.(ip := vm.ip + 1)
  {
    match ReadByte(vm)
    case Failure(f) => Failure(f)
    case Success((k, next)) =>
      if (k as int) < |vm.chunk.constants| then Success((vm.chunk.constants[k], next))
      else Failure(ConstantIndexOutOfRange)
  }

  /** One pass of the dispatch loop. */
  datatype Step =
    | Halt(result: InterpretResult)
    | Fail(fault: Fault)
    | Next(vm: Vm, printed: Option<Value>)

  function Execute(vm: Vm): (r: Step)
    ensures r.Halt? <==> vm.ip < |vm.chunk.code| && vm.chunk.code[vm.ip] == OpByte(OpReturn)
    ensures r.Halt? ==> r.result == InterpretOk
    ensures r.Next? ==> r.vm.chunk == vm.chunk && vm.ip < r.vm.ip <= |vm.chunk.code|
    ensures r.Next? && r.printed.Some? ==>
      && r.vm.ip == vm.ip + 2 && vm.chunk.code[vm.ip] == OpByte(OpConstant)
      && (vm.chunk.code[vm.ip + 1] as int) < |vm.chunk.constants|
      && r.printed.value == vm.chunk.constants[vm.chunk.code[vm.ip + 1]]
  {
    match ReadByte(vm)
    case Failure(f) => Fail(f)
    case Success((b, vm1)) =>
      match DecodeOp(b)
      case Some(OpReturn) => Halt(InterpretOk)
      case Some(OpConstant) =>
        (match ReadConstant(vm1)
         case Failure(f) => Fail(f)
         case Success((v, vm2)) => Next(vm2, Some(v)))
      case None => Next(vm1, None)
  }

  /** The dispatch loop from vm on, having printed output so far. Each value
      printed costs two bytes of the buffer, so at most half of the bytes
      from ip on add to the output. */
  function Run(vm: Vm, output: seq<Value>): (o: Outcome)
    ensures output <= o.output
    ensures vm.ip <= |vm.chunk.code| ==> 2 * (|o.output| - |output|) <= |vm.chunk.code| - vm.ip
    ensures |vm.chunk.code| <= vm.ip ==> o == Threw(CodeIndexOutOfRange, output)
    ensures o.Finished? ==> o.result == InterpretOk
    decreases |vm.chunk.code| - vm.ip
  {
    match Execute(vm)
    case Halt(result) => Finished(result, output)
    case Fail(f) => Threw(f, output)
    case Next(next, printed) =>
      Run(next, match printed case Some(v) => output + [v] case None => output)
  }

  /** interpret: runs the chunk from its first byte. */
  function Interpret(c: Chunk): (o: Outcome)
    ensures o.Finished? ==> o.result == InterpretOk
    ensures 0 < |c.code| && c.code[0] == OpByte(OpReturn) ==> o == Finished(InterpretOk, [])
  {
    Run(Vm(c, 0), [])
  }

  // ---------------------------------------------------------------------
  // The machine and the disassembler agree
  // ---------------------------------------------------------------------

  /** Each pass of the loop decodes exactly what the disassembler lists at ip:
      it fails exactly where the disassembler faults, stops exactly at a return
      line, prints exactly a constant line's value, and moves ip to the
      disassembler's next offset. */
  lemma ExecuteAgreesWithDisassembler(vm: Vm)
    ensures Execute(vm).Fail? <==> DisassembleInstruction(vm.chunk, vm.ip).Failure?
    ensures Execute(vm).Fail? ==> Execute(vm).fault == DisassembleInstruction(vm.chunk, vm.ip).error
    ensures Execute(vm).Halt? <==>
      DisassembleInstruction(vm.chunk, vm.ip).Success? && DisassembleInstruction(vm.chunk, vm.ip).value.line.ReturnLine?
    ensures Execute(vm).Next? ==>
      var d := DisassembleInstruction(vm.chunk, vm.ip).value;
      && Execute(vm).vm == vm.(ip := d.next)
      && (Execute(vm).printed.Some? <==> d.line.ConstantLine?)
      && (d.line.ConstantLine? ==> Execute(vm).printed.value == d.line.value)
  {
  }

  /** The values a program prints: one per constant instruction. */
  function Printed(prog: seq<Instruction>, constants: seq<Value>): (out: seq<Value>)
    requires IndicesInRange(prog, constants)
    ensures |out| <= |prog|
  {
    if prog == [] then []
    else
      var rest := Printed(prog[1..], constants);
      match prog[0]
      case Return => rest
      case Constant(k) => [constants[k]] + rest
  }

  /** A constant instruction at ip prints its constant and moves ip by two. */
  lemma ExecuteConstant(vm: Vm, k: byte)
    requires vm.ip + 1 < |vm.chunk.code| && (k as int) < |vm.chunk.constants|
    requires vm.chunk.code[vm.ip] == OpByte(OpConstant) && vm.chunk.code[vm.ip + 1] == k
    ensures Execute(vm) == Next(vm.(ip := vm.ip + 2), Some(vm.chunk.constants[k]))
  {
  }

  /** The buffer holds the bytes bs from offset ip on. */
  predicate BytesAt(code: seq<byte>, ip: nat, bs: seq<byte>) {
    ip + |bs| <= |code| && forall i :: 0 <= i < |bs| ==> code[ip + i] == bs[i]
  }

  lemma BytesAtSplit(code: seq<byte>, ip: nat, head: seq<byte>, tail: seq<byte>)
    requires BytesAt(code, ip, head + tail)
    ensures BytesAt(code, ip, head) && BytesAt(code, ip + |head|, tail)
  {
    forall i | 0 <= i < |head|
      ensures code[ip + i] == head[i]
    {
      assert code[ip + i] == (head + tail)[i];
    }
    forall i | 0 <= i < |tail|
      ensures code[ip + |head| + i] == tail[i]
    {
      assert code[ip + (|head| + i)] == (head + tail)[|head| + i];
    }
  }

  lemma AppendAssoc<T>(a: seq<T>, b: seq<T>, c: seq<T>)
    ensures a + b + c == a + (b + c)
  {
  }

  lemma IndicesInRangeTail(prog: seq<Instruction>, constants: seq<Value>)
    requires prog != [] && IndicesInRange(prog, constants)
    ensures IndicesInRange(prog[1..], constants)
  {
    forall i | 0 <= i < |prog[1..]| && prog[1..][i].Constant?
      ensures (prog[1..][i].index as int) < |constants|
    {
      assert prog[1..][i] == prog[i + 1];
    }
  }

  /** A return at ip ends the run at once. */
  lemma RunReturn(vm: Vm, output: seq<Value>)
    requires vm.ip < |vm.chunk.code| && vm.chunk.code[vm.ip] == OpByte(OpReturn)
    ensures Run(vm, output) == Finished(InterpretOk, output)
  {
  }

  /** The bytes of a non-empty return-free program followed by a return start
      with a constant instruction, and the rest of them follow it. */
  lemma EncodedStep(code: seq<byte>, ip: nat, prog: seq<Instruction>, constants: seq<Value>)
    requires prog != [] && IndicesInRange(prog, constants)
    requires forall i :: 0 <= i < |prog| ==> prog[i] != Return
    requires BytesAt(code, ip, Encode(prog) + [OpByte(OpReturn)])
    ensures prog[0].Constant? && (prog[0].index as int) < |constants|
    ensures ip + 1 < |code| && code[ip] == OpByte(OpConstant) && code[ip + 1] == prog[0].index
    ensures BytesAt(code, ip + 2, Encode(prog[1..]) + [OpByte(OpReturn)])
    ensures IndicesInRange(prog[1..], constants)
    ensures forall i :: 0 <= i < |prog[1..]| ==> prog[1..][i] != Return
    ensures Printed(prog, constants) == [constants[prog[0].index]] + Printed(prog[1..], constants)
  {
    var k := prog[0].index;
    assert prog[0] == Constant(k);
    var head := EncodeOne(prog[0]);
    var rest := Encode(prog[1..]) + [OpByte(OpReturn)];
    assert head == [OpByte(OpConstant), k];
    assert Encode(prog) + [OpByte(OpReturn)] == head + rest;
    BytesAtSplit(code, ip, head, rest);
    assert code[ip + 0] == head[0] && code[ip + 1] == head[1];
    IndicesInRangeTail(prog, constants);
    forall i | 0 <= i < |prog[1..]|
      ensures prog[1..][i] != Return
    {
      assert prog[1..][i] == prog[i + 1];
    }
  }

  /** Running the bytes of a return-free program followed by a return prints
      the program's constants in order and finishes with InterpretOk. */
  lemma {:induction false} RunEncoded(vm: Vm, output: seq<Value>, prog: seq<Instruction>)
    requires IndicesInRange(prog, vm.chunk.constants)
    requires forall i :: 0 <= i < |prog| ==> prog[i] != Return
    requires BytesAt(vm.chunk.code, vm.ip, Encode(prog) + [OpByte(OpReturn)])
    ensures Run(vm, output) == Finished(InterpretOk, output + Printed(prog, vm.chunk.constants))
    decreases prog
  {
    var code := vm.chunk.code;
    var cs := vm.chunk.constants;
    if prog == [] {
      var bs := Encode(prog) + [OpByte(OpReturn)];
      assert bs[0] == OpByte(OpReturn);
      RunReturn(vm, output);
    } else {
      EncodedStep(code, vm.ip, prog, cs);
      var k := prog[0].index;
      ExecuteConstant(vm, k);
      RunEncoded(vm.(ip := vm.ip + 2), output + [cs[k]], prog[1..]);
      AppendAssoc(output, [cs[k]], Printed(prog[1..], cs));
    }
  }

  /** A chunk built by writing a return-free program and a return into a new
      chunk with a pool covering its indices prints the program's constants
      and finishes with InterpretOk. */
  lemma InterpretWrittenProgram(prog: seq<Instruction>, constants: seq<Value>)
    requires IndicesInRange(prog, constants)
    requires forall i :: 0 <= i < |prog| ==> prog[i] != Return
    ensures var c := WriteOp(WriteAll(NewChunk().(constants := constants), Encode(prog)), OpReturn);
      Interpret(c) == Finished(InterpretOk, Printed(prog, constants))
  {
    var c := WriteOp(WriteAll(NewChunk().(constants := constants), Encode(prog)), OpReturn);
    assert Written(c) == Encode(prog) + [OpByte(OpReturn)];
    assert BytesAt(c.code, 0, Written(c));
    RunEncoded(Vm(c, 0), [], prog);
  }

  /** Without a return byte anywhere in the buffer, interpret never returns: it
      runs off the buffer, or off the pool, and throws. */
  lemma {:induction false} RunWithoutReturnThrows(vm: Vm, output: seq<Value>)
    requires forall i :: 0 <= i < |vm.chunk.code| ==> vm.chunk.code[i] != OpByte(OpReturn)
    ensures Run(vm, output).Threw?
    decreases |vm.chunk.code| - vm.ip
  {
    match Execute(vm)
    case Halt(_) =>
    case Fail(_) =>
    case Next(next, printed) =>
      RunWithoutReturnThrows(next, match printed case Some(v) => output + [v] case None => output);
  }
}
