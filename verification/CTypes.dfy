/** The declaration trees that libclang hands to the generator, with their raw layout metrics
    (a negative metric is libclang's "not available"). */
module CTypes {
  import opened Options

  datatype ScalarKind =
    | Bool | CharS | SChar | CharU | UChar | Short | UShort | Int | UInt
    | Long | ULong | LongLong | ULongLong | Float | Double | Enum
    | OtherKind  // void, __int128, long double, vectors, incomplete arrays, ...

  /** What the mapping reads of the type behind a pointer: its kind and its size. */
  datatype Pointee =
    | ToFunction | ToVoid | ToPointer | ToRecord
    | ToScalar(kind: ScalarKind, pointeeSize: int)
    | ToOther

  datatype DeclKind = StructDecl | UnionDecl | OtherDecl

  datatype CType =
    | Scalar(kind: ScalarKind, size: int, align: int)
    | Pointer(pointee: Pointee, size: int, align: int)
    | ConstantArray(elem: CType, count: int, size: int, align: int)
    | Record(decl: DeclKind, defined: bool, children: seq<Child>, size: int, align: int)

  /** A direct child of a record declaration: a FIELD_DECL cursor, or any other, be it a mere nested
      declaration or a C11 anonymous member. */
  datatype Child =
    | Field(spelling: string, offsetBits: int, bitfield: bool, ty: CType)
    | NestedDecl

  /** `_normalize_clang_metric` */
  function Metric(raw: int): Option<int> {
    if raw < 0 then None else Some(raw)
  }
}
