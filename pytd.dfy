/** The slice of the pytd intermediate representation the encoder reads: classes,
    their methods, signatures, parameters, and type references. */
module PyTD {
  import opened Wrappers

  /** A reference to a type inside a signature. A class reference carries the class
      it was resolved to, or None when it is still unresolved; `Generic` stands for
      the parametric wrappers, which the encoder unwraps to their base type;
      `OtherRef` stands for every node kind the encoder cannot convert. */
  datatype TypeRef =
    | ClassRef(name: string, cls: Option<Class>)
    | Generic(base: TypeRef, parameters: seq<TypeRef>)
    | UnionRef(typeList: seq<TypeRef>)
    | OtherRef(kind: string)

  datatype Param = Param(name: string, typ: TypeRef)

  datatype Signature = Signature(params: seq<Param>, returnType: TypeRef)

  /** A method: its name and its overloads. */
  datatype Function = Function(name: string, signatures: seq<Signature>)

  datatype Class = Class(name: string, methods: seq<Function>)

}
