/** One half of a code-table entry: an instruction type with its table size and its
    address mode (`Instruction.java`). Values of this datatype are immutable, as the
    Java class's fields are set once and have no mutators. */
module Instructions {
  import opened JavaInt
  import opened Errors

  /** `Instruction.InstructionType`, with the type byte of each constant. */
  datatype InstructionType = NoOp | Add | Run | Copy
  {
    /** `getOp`: the type byte of the constant. */
    function Op(): (r: nat)
      ensures r < 4
      ensures r == 0 <==> this == NoOp
    {
      match this
      case NoOp => 0
      case Add => 1
      case Run => 2
      case Copy => 3
    }
  }

  /** An instruction with its (signed) size byte and mode byte. A size of 0 on any
      type but NoOp means the size follows as a varint in the instruction section. */
  datatype Instruction = Instruction(ist: InstructionType, size: int8, mode: int8)

  const NoOpInstruction: Instruction := Instruction(NoOp, 0, 0)

  /** The `switch` of `Instruction(byte type, byte size, byte mode)`: type bytes 0..3
      name NO_OP, ADD, RUN and COPY; any other byte is an IllegalArgumentException. */
  function TypeOf(t: int8): (r: Result<InstructionType>)
    ensures r.Ok? <==> 0 <= t <= 3
    ensures r.Ok? ==> r.value.Op() == t
    ensures r.Err? ==> r.error == IllegalArgument
  {
    if t == 0 then Ok(NoOp)
    else if t == 1 then Ok(Add)
    else if t == 2 then Ok(Run)
    else if t == 3 then Ok(Copy)
    else Err(IllegalArgument)
  }

  /** `new Instruction(byte type, byte size, byte mode)`: the getters give back the
      size and mode unchanged, and `getIst().getOp()` gives back the type byte. */
  function FromBytes(t: int8, size: int8, mode: int8): (r: Result<Instruction>)
    ensures r.Ok? <==> 0 <= t <= 3
    ensures r.Ok? ==> r.value.ist.Op() == t && r.value.size == size && r.value.mode == mode
    ensures r.Err? ==> r.error == IllegalArgument
  {
    var ist :- TypeOf(t);
    Ok(Instruction(ist, size, mode))
  }

  /** The type byte of every constant maps back to that constant. */
  lemma {:induction false} TypeOfOp(ist: InstructionType)
    ensures TypeOf(ist.Op() as int8) == Ok(ist)
  {
    match ist
    case NoOp =>
    case Add =>
    case Run =>
    case Copy =>
  }
}
