/** Mapping C types to Go types (src/purego_gen/clang_type_mapping.py). The emitted Go text is
    represented by the Go type it denotes. */
module TypeMapping {
  import opened CTypes
  import opened GoLayout
  import opened Options
  import Alignment
  import Decimal
  import Identifiers

  datatype Code =
    | UnsupportedRecordKind | OpaqueIncompleteStruct | NoSupportedFields | UnsupportedAnonymousField
    | UnsupportedBitfield | UnsupportedFieldType | UnsupportedUnionSize

  datatype Result<+T> = Ok(value: T) | Unsupported(code: Code)

  // ---- scalars and pointers ----

  function SignedBySize(size: int): Option<GoBasic> {
    match size
    case 1 => Some(Int8)
    case 2 => Some(Int16)
    case 4 => Some(Int32)
    case 8 => Some(Int64)
    case _ => None
  }

  function UnsignedBySize(size: int): Option<GoBasic> {
    match size
    case 1 => Some(Uint8)
    case 2 => Some(Uint16)
    case 4 => Some(Uint32)
    case 8 => Some(Uint64)
    case _ => None
  }

  /** Kinds whose size depends on the target follow the reported size. */
  function MapVariableSize(kind: ScalarKind, size: int): Option<GoBasic> {
    match kind
    case Long | Enum => SignedBySize(size)
    case ULong => UnsignedBySize(size)
    case _ => None
  }

  function MapFixed(kind: ScalarKind): Option<GoBasic> {
    match kind
    case Bool => Some(GoBool)
    case CharS | SChar => Some(Int8)
    case CharU | UChar => Some(Uint8)
    case Short => Some(Int16)
    case UShort => Some(Uint16)
    case Int | Enum => Some(Int32)
    case UInt => Some(Uint32)
    case Long | LongLong => Some(Int64)
    case ULong | ULongLong => Some(Uint64)
    case Float => Some(Float32)
    case Double => Some(Float64)
    case OtherKind => None
  }

  function MapScalar(kind: ScalarKind, size: int): Option<GoBasic> {
    var bySize := MapVariableSize(kind, size);
    if bySize.Some? then bySize else MapFixed(kind)
  }

  function MapPointer(pointee: Pointee): GoType {
    match pointee
    case ToScalar(kind, size) =>
      if kind in {CharS, CharU, UChar} then Basic(Uintptr)
      else (match MapScalar(kind, size) case Some(b) => PtrTo(b) case None => Basic(Uintptr))
    case _ => Basic(Uintptr)
  }

  // ---- unions ----

  function BuildAlignmentWrapper(size: nat, align: int): GoType {
    var bytes := Padding(size);
    match align
    case 2 => Struct([GoField(BLANK, Array(0, Basic(Int16))), bytes])
    case 4 => Struct([GoField(BLANK, Array(0, Basic(Int32))), bytes])
    case 8 => Struct([GoField(BLANK, Array(0, Basic(Int64))), bytes])
    case _ => bytes.ty
  }

  function MapUnion(size: int, align: int): Result<GoType> {
    if size <= 0 then Unsupported(UnsupportedUnionSize)
    else Ok(BuildAlignmentWrapper(size, if align <= 0 then 1 else align))
  }

  // ---- explicit padding ----

  /** The state of `_StructPaddingTracker`. */
  datatype Tracker = Tracker(current: int, available: bool, fieldOffset: int)

  const START: Tracker := Tracker(0, true, 0)

  function AfterGap(tr: Tracker, offsetBits: int): Tracker {
    if !tr.available then tr
    else if offsetBits < 0 || offsetBits % 8 != 0 then tr.(available := false)
    else tr.(fieldOffset := offsetBits / 8)
  }

  function GapBefore(tr: Tracker, offsetBits: int): nat {
    if !AfterGap(tr, offsetBits).available then 0
    else Alignment.Max(offsetBits / 8 - tr.current, 0)
  }

  function AfterField(tr: Tracker, fieldSize: int): Tracker {
    if !tr.available then tr
    else if fieldSize < 0 then tr.(available := false)
    else tr.(current := tr.fieldOffset + fieldSize)
  }

  function TailGap(tr: Tracker, structSize: int): nat {
    if tr.available && structSize >= 0 && structSize > tr.current then structSize - tr.current else 0
  }

  class StructPaddingTracker {
    var currentOffsetBytes: int
    var available: bool
    var fieldOffsetBytes: int

    ghost function Value(): Tracker
      reads this
    {
      Tracker(currentOffsetBytes, available, fieldOffsetBytes)
    }

    constructor ()
      ensures Value() == START
    {
      currentOffsetBytes, available, fieldOffsetBytes := 0, true, 0;
    }

    method PreFieldGap(offsetBits: int) returns (gap: nat)
      modifies this
      ensures gap == GapBefore(old(Value()), offsetBits)
      ensures Value() == AfterGap(old(Value()), offsetBits)
    {
      if !available {
        return 0;
      }
      if offsetBits < 0 || offsetBits % 8 != 0 {
        available := false;
        return 0;
      }
      fieldOffsetBytes := offsetBits / 8;
      gap := Alignment.Max(fieldOffsetBytes - currentOffsetBytes, 0);
    }

    method Advance(fieldSize: int)
      modifies this
      ensures Value() == AfterField(old(Value()), fieldSize)
    {
      if !available {
        return;
      }
      if fieldSize >= 0 {
        currentOffsetBytes := fieldOffsetBytes + fieldSize;
      } else {
        available := false;
      }
    }

    method TailPadding(structSize: int) returns (gap: nat)
      ensures gap == TailGap(Value(), structSize)
    {
      if !available {
        return 0;
      }
      if structSize >= 0 && structSize > currentOffsetBytes {
        return structSize - currentOffsetBytes;
      }
      return 0;
    }
  }

  // ---- records ----

  /** What has been emitted for the children processed so far. */
  datatype Emission = Emission(lines: seq<GoField>, seen: set<string>, realFields: nat, tracker: Tracker)

  /** `_evaluate_record_field_support`, given the mapping of the field's type. */
  function FieldSupport(spelling: string, bitfield: bool, mapped: Option<GoType>): Result<GoType> {
    if spelling == "" then Unsupported(UnsupportedAnonymousField)
    else if bitfield then Unsupported(UnsupportedBitfield)
    else match mapped case None => Unsupported(UnsupportedFieldType) case Some(g) => Ok(g)
  }

  /** The Go name of the child at 1-based position `index`. */
  function FieldName(spelling: string, index: nat, seen: set<string>): string {
    Identifiers.Allocate(
      Identifiers.SanitizeStructField(spelling, "field_" + Decimal.Format(index)), seen)
  }

  function PaddingLines(gap: nat): seq<GoField> {
    if gap > 0 then [Padding(gap)] else []
  }

  function EmitField(em: Emission, c: Child, index: nat, g: GoType): Emission
    requires c.Field?
  {
    var name := FieldName(c.spelling, index, em.seen);
    Emission(
      em.lines + PaddingLines(GapBefore(em.tracker, c.offsetBits)) + [GoField(name, g)],
      em.seen + {name},
      em.realFields + 1,
      AfterField(AfterGap(em.tracker, c.offsetBits), c.ty.size))
  }

  function MapType(t: CType): Option<GoType>
    decreases t, 1
  {
    match t
    case Scalar(kind, size, _) =>
      (match MapScalar(kind, size) case Some(b) => Some(Basic(b)) case None => None)
    case Pointer(pointee, _, _) => Some(MapPointer(pointee))
    case ConstantArray(elem, count, _, _) =>
      (match MapType(elem)
       case None => None
       case Some(g) => if count < 0 then None else Some(Array(count, g)))
    case Record(_, _, _, _, _) =>
      (match MapRecord(t) case Ok(g) => Some(g) case Unsupported(_) => None)
  }

  function MapRecord(t: CType): Result<GoType>
    requires t.Record?
    decreases t, 0
  {
    if t.decl.OtherDecl? then Unsupported(UnsupportedRecordKind)
    else if t.decl.StructDecl? && !t.defined then Unsupported(OpaqueIncompleteStruct)
    else if t.decl.UnionDecl? then MapUnion(t.size, t.align)
    else
      match EmitChildren(t.children)
      case Unsupported(code) => Unsupported(code)
      case Ok(em) =>
        if em.realFields == 0 then Unsupported(NoSupportedFields)
        else Ok(Struct(em.lines + PaddingLines(TailGap(em.tracker, t.size))))
  }

  function EmitChildren(cs: seq<Child>): Result<Emission>
    decreases cs, 2
  {
    if cs == [] then Ok(Emission([], {}, 0, START))
    else
      var n := |cs| - 1;
      match EmitChildren(cs[..n])
      case Unsupported(code) => Unsupported(code)
      case Ok(em) =>
        match cs[n]
        case NestedDecl => Ok(em)
        case Field(spelling, _, bitfield, ty) =>
          match FieldSupport(spelling, bitfield, MapType(ty))
          case Unsupported(code) => Unsupported(code)
          case Ok(g) => Ok(EmitField(em, cs[n], |cs|, g))
  }

  lemma {:induction false} EmitChildrenStops(cs: seq<Child>, n: nat)
    requires n <= |cs| && EmitChildren(cs[..n]).Unsupported?
    ensures EmitChildren(cs) == EmitChildren(cs[..n])
  {
    if n < |cs| {
      assert cs[..|cs| - 1][..n] == cs[..n];
      EmitChildrenStops(cs[..|cs| - 1], n);
    } else {
      assert cs[..n] == cs;
    }
  }

  function FieldLine(c: Child, index: nat, seen: set<string>): Result<GoField>
    requires c.Field?
  {
    match FieldSupport(c.spelling, c.bitfield, MapType(c.ty))
    case Unsupported(code) => Unsupported(code)
    case Ok(g) => Ok(GoField(FieldName(c.spelling, index, seen), g))
  }

  /** `_allocate_unique_field_name` */
  method AllocateUniqueFieldName(base: string, seen: set<string>) returns (name: string)
    ensures name == Identifiers.Allocate(base, seen)
  {
    name := base;
    var suffix := 2;
    while name in seen
      invariant 2 <= suffix
      invariant name == if suffix == 2 then base else Identifiers.Suffixed(base, suffix - 1)
      invariant suffix > 2 ==> base in seen
      invariant Identifiers.FirstFree(base, seen, 2)
             == Identifiers.FirstFree(base, seen, if suffix == 2 then 2 else suffix - 1)
      decreases Identifiers.Pending(base, seen, if suffix == 2 then 2 else suffix - 1),
                if suffix == 2 then 1 else 0
    {
      if suffix > 2 {
        Identifiers.PendingShrinks(base, seen, suffix - 1);
      }
      name := Identifiers.Suffixed(base, suffix);
      suffix := suffix + 1;
    }
  }

  /** `_map_record_field_to_go_line` */
  method MapRecordFieldToGoLine(c: Child, index: nat, seen: set<string>) returns (r: Result<GoField>)
    requires c.Field?
    ensures r == FieldLine(c, index, seen)
  {
    var support := FieldSupport(c.spelling, c.bitfield, MapType(c.ty));
    if support.Unsupported? {
      return Unsupported(support.code);
    }
    var base := Identifiers.SanitizeStructField(c.spelling, "field_" + Decimal.Format(index));
    var name := AllocateUniqueFieldName(base, seen);
    return Ok(GoField(name, support.value));
  }

  lemma {:induction false} PaddedLines(lines: seq<GoField>, gap: nat)
    ensures lines + PaddingLines(gap) == if gap > 0 then lines + [Padding(gap)] else lines
  {
  }

  /** What one loop iteration does, given its field line. */
  lemma {:induction false} EmitStep(cs: seq<Child>, i: nat, em: Emission, line: Result<GoField>)
    requires i < |cs| && EmitChildren(cs[..i]) == Ok(em)
    requires cs[i].Field? ==> line == FieldLine(cs[i], i + 1, em.seen)
    ensures EmitChildren(cs[..i + 1]) ==
      if cs[i].NestedDecl? then Ok(em)
      else match line
           case Unsupported(code) => Unsupported(code)
           case Ok(line) => Ok(Emission(
             em.lines + PaddingLines(GapBefore(em.tracker, cs[i].offsetBits)) + [line],
             em.seen + {line.name},
             em.realFields + 1,
             AfterField(AfterGap(em.tracker, cs[i].offsetBits), cs[i].ty.size)))
  {
    assert cs[..i + 1][..i] == cs[..i];
  }

  lemma {:induction false} StructUnmapped(t: CType, n: nat)
    requires t.Record? && t.decl.StructDecl? && t.defined && n <= |t.children|
    requires EmitChildren(t.children[..n]).Unsupported?
    ensures MapRecord(t) == Unsupported(EmitChildren(t.children[..n]).code)
  {
    EmitChildrenStops(t.children, n);
  }

  /** `map_record_type_to_go_name` */
  method MapRecordTypeToGoName(t: CType) returns (r: Result<GoType>)
    requires t.Record?
    ensures r == MapRecord(t)
  {
    if t.decl.OtherDecl? {
      return Unsupported(UnsupportedRecordKind);
    }
    if t.decl.StructDecl? && !t.defined {
      return Unsupported(OpaqueIncompleteStruct);
    }
    if t.decl.UnionDecl? {
      return MapUnion(t.size, t.align);
    }
    var fieldLines: seq<GoField>, seenFieldNames: set<string>, realFieldCount := [], {}, 0;
    var padding := new StructPaddingTracker();
    for i := 0 to |t.children|
      invariant EmitChildren(t.children[..i])
             == Ok(Emission(fieldLines, seenFieldNames, realFieldCount, padding.Value()))
    {
      ghost var em := Emission(fieldLines, seenFieldNames, realFieldCount, padding.Value());
      var child := t.children[i];
      if child.NestedDecl? {
        EmitStep(t.children, i, em, Unsupported(NoSupportedFields));
        continue;
      }
      var gap := padding.PreFieldGap(child.offsetBits);
      if gap > 0 {
        fieldLines := fieldLines + [Padding(gap)];
      }
      PaddedLines(em.lines, gap);
      var line := MapRecordFieldToGoLine(child, i + 1, seenFieldNames);
      EmitStep(t.children, i, em, line);
      if line.Unsupported? {
        StructUnmapped(t, i + 1);
        return Unsupported(line.code);
      }
      seenFieldNames := seenFieldNames + {line.value.name};
      fieldLines := fieldLines + [line.value];
      realFieldCount := realFieldCount + 1;
      padding.Advance(child.ty.size);
    }
    assert t.children[..|t.children|] == t.children;
    ghost var fields := fieldLines;
    var tail := padding.TailPadding(t.size);
    if tail > 0 {
      fieldLines := fieldLines + [Padding(tail)];
    }
    PaddedLines(fields, tail);
    if realFieldCount == 0 {
      return Unsupported(NoSupportedFields);
    }
    return Ok(Struct(fieldLines));
  }

  // ---- which types are mapped ----

  /** A type is mapped exactly when it is built from mapped scalars and pointers by arrays of known
      length, unions of positive size, and complete structs that have a field and whose fields are
      named, are no bitfields and have mapped types. */
  predicate Supported(t: CType)
    decreases t
  {
    match t
    case Scalar(kind, _, _) => kind != OtherKind
    case Pointer(_, _, _) => true
    case ConstantArray(elem, count, _, _) => count >= 0 && Supported(elem)
    case Record(decl, defined, children, size, _) =>
      match decl
      case OtherDecl => false
      case UnionDecl => size > 0
      case StructDecl =>
        && defined
        && (exists i {:trigger children[i]} :: 0 <= i < |children| && children[i].Field?)
        && forall i {:trigger children[i]} :: 0 <= i < |children| ==> ChildSupported(children[i])
  }

  predicate ChildSupported(c: Child)
    decreases c
  {
    c.Field? ==> c.spelling != "" && !c.bitfield && Supported(c.ty)
  }

  lemma {:induction false} MappedIffSupported(t: CType)
    ensures MapType(t).Some? <==> Supported(t)
    decreases t, 1
  {
    match t {
      case Scalar(_, _, _) =>
      case Pointer(_, _, _) =>
      case ConstantArray(elem, _, _, _) => MappedIffSupported(elem);
      case Record(_, _, children, _, _) => EmittedIffSupported(children);
    }
  }

  lemma {:induction false} EmittedIffSupported(cs: seq<Child>)
    ensures EmitChildren(cs).Ok? <==> forall i {:trigger cs[i]} :: 0 <= i < |cs| ==> ChildSupported(cs[i])
    ensures EmitChildren(cs).Ok? ==>
      (EmitChildren(cs).value.realFields > 0 <==> exists i {:trigger cs[i]} :: 0 <= i < |cs| && cs[i].Field?)
    decreases cs, 2
  {
    if cs != [] {
      var n := |cs| - 1;
      var init := cs[..n];
      EmittedIffSupported(init);
      forall i | 0 <= i < n ensures cs[i] == init[i] {}
      ChildEmitted(cs);
      if cs[n].Field? {
        MappedIffSupported(cs[n].ty);
      }
      if EmitChildren(init).Ok? && EmitChildren(init).value.realFields > 0 {
        var i :| 0 <= i < |init| && init[i].Field?;
        assert cs[i].Field?;
      }
    }
  }

  /** What the last child decides. */
  lemma {:induction false} ChildEmitted(cs: seq<Child>)
    requires cs != []
    ensures var init, c := EmitChildren(cs[..|cs| - 1]), cs[|cs| - 1];
      && (EmitChildren(cs).Ok? <==> init.Ok? && (c.Field? ==> c.spelling != "" && !c.bitfield && MapType(c.ty).Some?))
      && (EmitChildren(cs).Ok? ==>
            EmitChildren(cs).value.realFields == init.value.realFields + if c.Field? then 1 else 0)
  {
  }

  // ---- padding without metrics ----

  /** The place of the child is known: a whole byte, and a size. */
  predicate Located(c: Child) {
    c.Field? ==> c.offsetBits >= 0 && c.offsetBits % 8 == 0 && c.ty.size >= 0
  }

  predicate AllLocated(cs: seq<Child>) {
    forall i {:trigger cs[i]} :: 0 <= i < |cs| ==> Located(cs[i])
  }

  /** The padding tracker is on exactly as long as all fields were located. */
  lemma {:induction false} TrackerExact(cs: seq<Child>)
    requires EmitChildren(cs).Ok?
    ensures EmitChildren(cs).value.tracker.available <==> AllLocated(cs)
  {
    if cs != [] {
      var n := |cs| - 1;
      TrackerExact(cs[..n]);
      LocatedSnoc(cs);
    }
  }

  lemma {:induction false} LocatedSnoc(cs: seq<Child>)
    requires cs != []
    ensures AllLocated(cs) <==> AllLocated(cs[..|cs| - 1]) && Located(cs[|cs| - 1])
  {
    forall i | 0 <= i < |cs| - 1 ensures cs[..|cs| - 1][i] == cs[i] {}
  }

  /** From the first field on that is not located there is no padding, neither before a field nor at
      the end. */
  lemma {:induction false} UnlocatedUnpadded(cs: seq<Child>, g: GoType, size: int)
    requires cs != [] && cs[|cs| - 1].Field? && EmitChildren(cs).Ok? && EmitChildren(cs[..|cs| - 1]).Ok?
    requires MapType(cs[|cs| - 1].ty) == Some(g)
    requires !AllLocated(cs)
    ensures TailGap(EmitChildren(cs).value.tracker, size) == 0
    ensures !(AllLocated(cs[..|cs| - 1]) && cs[|cs| - 1].offsetBits >= 0 && cs[|cs| - 1].offsetBits % 8 == 0) ==>
      exists name :: EmitChildren(cs).value.lines == EmitChildren(cs[..|cs| - 1]).value.lines + [GoField(name, g)]
  {
    var n := |cs| - 1;
    var em, em' := EmitChildren(cs[..n]).value, EmitChildren(cs).value;
    TrackerExact(cs);
    TrackerExact(cs[..n]);
    LocatedSnoc(cs);
    var name := FieldName(cs[n].spelling, |cs|, em.seen);
    if GapBefore(em.tracker, cs[n].offsetBits) == 0 {
      assert em.lines + [] == em.lines;
      assert em'.lines == em.lines + [GoField(name, g)];
    }
  }
}
