/** The C types of the FFI, as an algebraic datatype.

    Pointer, array and function types are compared by structure here, which is all that
    printing, layout and calls depend on; where the library depends on which object stands
    for a type, objects are numbered. Structs and unions have identity: a `Composite` names
    one, and a `Graph` gives the bodies of those that are defined. A composite without a body is
    opaque. A null type pointer, which the library uses for C's void, is `Void`.
 */
module Types {

  datatype Option<+T> = None | Some(value: T)

  datatype BasicKind =
    | Bool | Char | SChar | UChar | Short | UShort | Int | UInt | Long | ULong
    | LongLong | ULongLong | Int128 | UInt128 | Float | Double | LongDouble
    | ComplexFloat | ComplexDouble | ComplexLongDouble

  datatype CallingConv =
    | CC_C | CC_X86StdCall | CC_X86FastCall | CC_X86ThisCall | CC_X86VectorCall
    | CC_X86Pascal | CC_Win64 | CC_X86_64SysV | CC_X86RegCall | CC_AAPCS | CC_AAPCS_VFP
    | CC_IntelOclBicc | CC_SpirFunction | CC_OpenCLKernel | CC_Swift | CC_SwiftAsync
    | CC_PreserveMost | CC_PreserveAll | CC_AArch64VectorCall

  datatype CompositeKind = Struct | Union

  datatype Composite = Composite(kind: CompositeKind, id: nat)

  /** A type with its const qualifier, the one qualifier the library records. */
  datatype QualType = Qual(ty: Type, isConst: bool)

  datatype Type =
    | Void
    | Basic(kind: BasicKind)
    | Enum(id: nat)
    | Pointer(pointee: QualType)
    | Array(elem: QualType, count: nat)
    | Function(ret: QualType, params: seq<QualType>, cc: CallingConv, variadic: bool, useLastError: bool)
    | Comp(c: Composite)

  datatype Field = Field(name: string, ty: Type, offset: nat)

  datatype Body = Body(fields: seq<Field>, size: nat)

  type Graph = map<Composite, Body>

  /** The fields in declaration order; an opaque composite has none. */
  function Fields(g: Graph, c: Composite): seq<Field> {
    if c in g then g[c].fields else []
  }

  const POINTER_SIZE := 8

  /** `sizeof` on the LP64 hosts the library is built for. */
  function BasicSize(k: BasicKind): nat {
    match k
    case Bool => 1
    case Char => 1
    case SChar => 1
    case UChar => 1
    case Short => 2
    case UShort => 2
    case Int => 4
    case UInt => 4
    case Float => 4
    case Long => 8
    case ULong => 8
    case LongLong => 8
    case ULongLong => 8
    case Double => 8
    case ComplexFloat => 8
    case Int128 => 16
    case UInt128 => 16
    case LongDouble => 16
    case ComplexDouble => 16
    case ComplexLongDouble => 32
  }

  /** `Type::getSize`: functions inherit size 1, and so does void here. */
  function SizeOf(g: Graph, ty: Type): nat {
    match ty
    case Void => 1
    case Function(_, _, _, _, _) => 1
    case Basic(k) => BasicSize(k)
    case Enum(_) => BasicSize(Int)
    case Pointer(_) => POINTER_SIZE
    case Array(e, n) => SizeOf(g, e.ty) * n
    case Comp(c) => if c in g then g[c].size else 0
  }

  /** Fields lie inside their composite. */
  ghost predicate FieldsInside(g: Graph) {
    forall c, f | f in Fields(g, c) :: f.offset + SizeOf(g, f.ty) <= SizeOf(g, Comp(c))
  }
}
