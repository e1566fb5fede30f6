/** Go types as the generator emits them, and the layout the Go compiler gives them on a 64-bit
    target: each field at the next offset aligned for its type, the struct aligned like its most
    aligned field, its size rounded up to that alignment, and one extra byte when a struct of
    non-zero size ends in a field of size zero. */
module GoLayout {
  import opened Alignment

  datatype GoBasic =
    | GoBool | Int8 | Int16 | Int32 | Int64 | Uint8 | Uint16 | Uint32 | Uint64
    | Float32 | Float64 | Uintptr

  datatype GoType =
    | Basic(basic: GoBasic)
    | PtrTo(target: GoBasic)
    | Array(length: nat, elem: GoType)
    | Struct(fields: seq<GoField>)

  datatype GoField = GoField(name: string, ty: GoType)

  const BLANK: string := "_"

  /** `_ [n]byte` */
  function Padding(n: nat): GoField {
    GoField(BLANK, Array(n, Basic(Uint8)))
  }

  function BasicSize(b: GoBasic): (n: nat)
    ensures n == 1 || n == 2 || n == 4 || n == 8
  {
    match b
    case GoBool | Int8 | Uint8 => 1
    case Int16 | Uint16 => 2
    case Int32 | Uint32 | Float32 => 4
    case Int64 | Uint64 | Float64 | Uintptr => 8
  }

  function Align(g: GoType): (a: nat)
    ensures a == 1 || a == 2 || a == 4 || a == 8
    decreases g
  {
    match g
    case Basic(b) => BasicSize(b)
    case PtrTo(_) => 8
    case Array(_, elem) => Align(elem)
    case Struct(fields) => MaxAlign(fields)
  }

  function MaxAlign(fields: seq<GoField>): (a: nat)
    ensures a == 1 || a == 2 || a == 4 || a == 8
    decreases fields
  {
    if fields == [] then 1
    else Max(MaxAlign(fields[..|fields| - 1]), Align(fields[|fields| - 1].ty))
  }

  function Size(g: GoType): nat
    decreases g
  {
    match g
    case Basic(b) => BasicSize(b)
    case PtrTo(_) => 8
    case Array(n, elem) => n * Size(elem)
    case Struct(fields) =>
      var end := End(fields);
      var guarded := if end > 0 && Size(fields[|fields| - 1].ty) == 0 then end + 1 else end;
      NextAligned(guarded, MaxAlign(fields))
  }

  /** The offset just past the last field. */
  function End(fields: seq<GoField>): (end: nat)
    ensures fields == [] ==> end == 0
    decreases fields
  {
    if fields == [] then 0
    else
      var last := fields[|fields| - 1];
      NextAligned(End(fields[..|fields| - 1]), Align(last.ty)) + Size(last.ty)
  }

  /** The next aligned offset; alignments are 1, 2, 4 and 8. */
  function NextAligned(offset: nat, alignment: nat): (r: nat)
    ensures r >= offset
  {
    match alignment
    case 2 => (offset + 1) / 2 * 2
    case 4 => (offset + 3) / 4 * 4
    case 8 => (offset + 7) / 8 * 8
    case _ => offset
  }

  lemma {:induction false} NextAlignedExact(offset: nat, alignment: nat)
    requires alignment == 1 || alignment == 2 || alignment == 4 || alignment == 8
    ensures NextAligned(offset, alignment) == AlignUp(offset, alignment)
    ensures NextAligned(offset, alignment) == offset <==> Divides(alignment, offset)
  {
    match alignment {
      case 1 => AlignUpBounds(offset, 1);
      case 2 => AlignUpBounds(offset, 2);
      case 4 => AlignUpBounds(offset, 4);
      case 8 => AlignUpBounds(offset, 8);
    }
  }

  /** A named field with the offset the Go compiler gives it. */
  datatype Placed = Placed(name: string, ty: GoType, offset: nat)

  function NamedLayout(fields: seq<GoField>): seq<Placed> {
    if fields == [] then []
    else
      var init, last := fields[..|fields| - 1], fields[|fields| - 1];
      if last.name == BLANK then NamedLayout(init)
      else NamedLayout(init) + [Placed(last.name, last.ty, NextAligned(End(init), Align(last.ty)))]
  }
}
