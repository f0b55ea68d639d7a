/** The slice of a compiled module's metadata that the analysis reads, as
    plain immutable records standing in for the metadata reader's objects. */
module Metadata {
  import opened Wrappers

  /** Identity of a loaded assembly; two methods belong to the same assembly
      exactly when their identities are equal. */
  type AssemblyId = nat

  /** A field: its name and the full name of its declared type. */
  datatype FieldDef = FieldDef(name: string, fieldTypeName: string)

  /** A reference to a method as it appears as an instruction operand. */
  datatype MethodRef = MethodRef(fullName: string)

  /** The operation code classes the analysis distinguishes; every other
      opcode is `OtherOp`. */
  datatype OpCode = Call | Callvirt | OtherOp(code: nat)

  /** An instruction operand: a method reference, or anything else. */
  datatype Operand = MethodOperand(target: MethodRef) | OtherOperand | NoOperand

  datatype Instruction = Instruction(opCode: OpCode, operand: Operand)

  /** A method definition: its simple name, its full name (the identity the
      call-graph walk records), its owning assembly and, when it has one, its
      body as an instruction stream. */
  datatype MethodDef = MethodDef(
    name: string,
    fullName: string,
    assembly: AssemblyId,
    body: Option<seq<Instruction>>)

  /** A type declared in a module: its namespace-qualified full name, its
      fields and its methods, each in declaration order. */
  datatype TypeDef = TypeDef(fullName: string, fields: seq<FieldDef>, methods: seq<MethodDef>)
}
