/** The emitted Go type has the layout of the C type: every named field at its C offset, at every
    nesting level, and the same total size. This holds exactly under two conditions that can be
    read off the C declaration, `AlignedForGo` and `NoZeroTail`. */
module LayoutFidelity {
  import opened Alignment
  import opened CTypes
  import opened GoLayout
  import opened TypeMapping
  import opened Options
  import Identifiers
  import Decimal

  // ---- C metadata ----

  /** Classes of values; an address is an integer that Go gives a type of its own. */
  datatype ValueClass = Boolean | Signed | Unsigned | Floating | Address

  /** The class of values that a scalar kind is given in Go: that of C, except that an enumeration
      counts as signed, while in C it may be either (section 6.7.2.2 of ISO/IEC 9899:2011). */
  function CClass(kind: ScalarKind): ValueClass {
    match kind
    case Bool => Boolean
    case CharS | SChar | Short | Int | Long | LongLong | Enum => Signed
    case Float | Double => Floating
    case _ => Unsigned
  }

  function GoClass(b: GoBasic): ValueClass {
    match b
    case GoBool => Boolean
    case Int8 | Int16 | Int32 | Int64 => Signed
    case Uint8 | Uint16 | Uint32 | Uint64 => Unsigned
    case Float32 | Float64 => Floating
    case Uintptr => Address
  }

  predicate SameClass(kind: ScalarKind, b: GoBasic) {
    GoClass(b) == CClass(kind)
  }

  /** There is one Go type of each class and size. */
  lemma {:induction false} ClassAndSizeDecide(b: GoBasic, b': GoBasic)
    requires GoClass(b) == GoClass(b') && BasicSize(b) == BasicSize(b')
    ensures b == b'
  {
  }

  /** Sizes of the scalar kinds on a 64-bit target; `long` and enumerations vary. */
  predicate ScalarSize(kind: ScalarKind, size: int) {
    match kind
    case Bool | CharS | SChar | CharU | UChar => size == 1
    case Short | UShort => size == 2
    case Int | UInt | Float => size == 4
    case LongLong | ULongLong | Double => size == 8
    case Long | ULong => size == 4 || size == 8
    case Enum => size == 1 || size == 2 || size == 4 || size == 8
    case OtherKind => true
  }

  /** The end of the last field, by the reported offsets and sizes. */
  function FieldsEnd(cs: seq<Child>): int {
    if cs == [] then 0
    else match cs[|cs| - 1]
         case NestedDecl => FieldsEnd(cs[..|cs| - 1])
         case Field(_, offsetBits, _, ty) => offsetBits / 8 + ty.size
  }

  function LastFieldSize(cs: seq<Child>): int {
    if cs == [] then 0
    else match cs[|cs| - 1]
         case NestedDecl => LastFieldSize(cs[..|cs| - 1])
         case Field(_, _, _, ty) => ty.size
  }

  /** What any C compiler reports for a complete object type, packed or over-aligned types
      included: sizes of scalars and pointers, arrays without gaps, fields at byte offsets, in order
      and without overlap, inside the record. */
  predicate WellFormed(t: CType)
    decreases t
  {
    match t
    case Scalar(kind, size, _) => ScalarSize(kind, size)
    case Pointer(pointee, size, _) => size == 8 && (pointee.ToScalar? ==> ScalarSize(pointee.kind, pointee.pointeeSize))
    case ConstantArray(elem, count, size, _) => WellFormed(elem) && (count >= 0 ==> size == count * elem.size)
    case Record(decl, _, children, size, _) =>
      size >= 0 && (decl.StructDecl? ==> WellFormedFields(children) && FieldsEnd(children) <= size)
  }

  predicate WellFormedFields(cs: seq<Child>)
    decreases cs
  {
    cs != [] ==>
      && WellFormedFields(cs[..|cs| - 1])
      && match cs[|cs| - 1]
         case NestedDecl => true
         case Field(_, offsetBits, _, ty) =>
           && WellFormed(ty) && ty.size >= 0
           && offsetBits % 8 == 0 && FieldsEnd(cs[..|cs| - 1]) <= offsetBits / 8
  }

  // ---- the two conditions ----

  /** The alignment that the Go counterpart of a C type will have. */
  function GoAlignOf(t: CType): (a: int)
    decreases t
  {
    match t
    case Scalar(_, size, _) => size
    case Pointer(_, _, _) => 8
    case ConstantArray(elem, _, _, _) => GoAlignOf(elem)
    case Record(decl, _, children, _, align) =>
      if decl.UnionDecl? then (if align == 2 || align == 4 || align == 8 then align else 1)
      else GoAlignOfFields(children)
  }

  function GoAlignOfFields(cs: seq<Child>): (a: int)
    ensures a >= 1
    decreases cs
  {
    if cs == [] then 1
    else match cs[|cs| - 1]
         case NestedDecl => GoAlignOfFields(cs[..|cs| - 1])
         case Field(_, _, _, ty) => Max(GoAlignOfFields(cs[..|cs| - 1]), GoAlignOf(ty))
  }

  predicate IsMultiple(n: int, d: int) {
    d > 0 && Divides(d, n)
  }

  /** Every field offset and every record size is a multiple of the Go alignment. */
  predicate AlignedForGo(t: CType)
    decreases t
  {
    match t
    case Scalar(_, _, _) => true
    case Pointer(_, _, _) => true
    case ConstantArray(elem, _, _, _) => AlignedForGo(elem)
    case Record(decl, _, children, size, _) =>
      IsMultiple(size, GoAlignOf(t)) && (decl.StructDecl? ==> FieldsAlignedForGo(children))
  }

  predicate FieldsAlignedForGo(cs: seq<Child>)
    decreases cs
  {
    cs != [] ==>
      && FieldsAlignedForGo(cs[..|cs| - 1])
      && match cs[|cs| - 1]
         case NestedDecl => true
         case Field(_, offsetBits, _, ty) => IsMultiple(offsetBits / 8, GoAlignOf(ty)) && AlignedForGo(ty)
  }

  /** No struct of positive size ends exactly with a field of size zero. */
  predicate NoZeroTail(t: CType)
    decreases t
  {
    match t
    case Scalar(_, _, _) => true
    case Pointer(_, _, _) => true
    case ConstantArray(elem, _, _, _) => NoZeroTail(elem)
    case Record(decl, _, children, size, _) =>
      decl.StructDecl? ==>
        FieldsNoZeroTail(children) && !(size > 0 && LastFieldSize(children) == 0 && FieldsEnd(children) == size)
  }

  predicate FieldsNoZeroTail(cs: seq<Child>)
    decreases cs
  {
    cs != [] ==>
      && FieldsNoZeroTail(cs[..|cs| - 1])
      && match cs[|cs| - 1] case NestedDecl => true case Field(_, _, _, ty) => NoZeroTail(ty)
  }

  // ---- what is promised ----

  /** What a pointer becomes: a typed one exactly when it points to a scalar that Go has and that is no
      character of a string, and then to values of the same class and size. */
  predicate PointsLike(pointee: Pointee, g: GoType) {
    match pointee
    case ToFunction => g == Basic(Uintptr)
    case ToVoid => g == Basic(Uintptr)
    case ToPointer => g == Basic(Uintptr)
    case ToRecord => g == Basic(Uintptr)
    case ToOther => g == Basic(Uintptr)
    case ToScalar(kind, size) =>
      if kind.OtherKind? || kind.CharS? || kind.CharU? || kind.UChar? then g == Basic(Uintptr)
      else g.PtrTo? && SameClass(kind, g.target) && BasicSize(g.target) == size
  }

  /** The Go type lays its bytes out like the C type, at every level. */
  predicate Faithful(t: CType, g: GoType)
    decreases t
  {
    && Size(g) == t.size
    && match t
       case Scalar(kind, _, _) => g.Basic? && SameClass(kind, g.basic)
       case Pointer(pointee, _, _) => PointsLike(pointee, g)
       case ConstantArray(elem, count, _, _) => g.Array? && g.length == count && Faithful(elem, g.elem)
       case Record(decl, _, children, _, _) =>
         if decl.StructDecl? then g.Struct? && FieldsFaithful(children, NamedLayout(g.fields))
         else HoldsBytes(g, t.size)
  }

  /** The bytes of a union stand at offset 0, behind nothing but a mark for the alignment. */
  predicate HoldsBytes(g: GoType, size: int) {
    || (size >= 0 && g == Array(size, Basic(Uint8)))
    || (g.Struct? && |g.fields| == 2 && Size(g.fields[0].ty) == 0 && g.fields[0].name == BLANK
        && size >= 0 && g.fields[1] == Padding(size))
  }

  predicate FieldsFaithful(cs: seq<Child>, placed: seq<Placed>)
    decreases cs
  {
    if cs == [] then placed == []
    else
      var init := cs[..|cs| - 1];
      match cs[|cs| - 1]
      case NestedDecl => FieldsFaithful(init, placed)
      case Field(_, offsetBits, _, ty) =>
        placed != [] && var last := placed[|placed| - 1];
        FieldsFaithful(init, placed[..|placed| - 1]) && last.offset * 8 == offsetBits && Faithful(ty, last.ty)
  }

  // ---- proof ----

  lemma {:induction false} ScalarFaithful(kind: ScalarKind, size: int, b: GoBasic)
    requires ScalarSize(kind, size) && MapScalar(kind, size) == Some(b)
    ensures BasicSize(b) == size && SameClass(kind, b)
  {
  }

  /** The size that stands for a kind when the reported one is missing or odd. */
  function UsualSize(kind: ScalarKind): int {
    match kind
    case Bool | CharS | SChar | CharU | UChar => 1
    case Short | UShort => 2
    case Int | UInt | Enum | Float => 4
    case _ => 8
  }

  /** Every scalar kind but the unsupported ones is mapped to the Go type of its class and size;
      `long` and enumerations by the reported size when Go has an integer of that size. */
  lemma {:induction false} MapScalarExact(kind: ScalarKind, size: int)
    ensures MapType(Scalar(kind, size, 0)) == None <==> kind.OtherKind?
    ensures !kind.OtherKind? ==>
      var g := MapType(Scalar(kind, size, 0)).value;
      && g.Basic? && SameClass(kind, g.basic)
      && BasicSize(g.basic)
         == if (kind.Long? || kind.ULong? || kind.Enum?) && size in {1, 2, 4, 8} then size else UsualSize(kind)
  {
  }

  lemma {:induction false} PointerFaithful(pointee: Pointee)
    requires pointee.ToScalar? ==> ScalarSize(pointee.kind, pointee.pointeeSize)
    ensures PointsLike(pointee, MapPointer(pointee)) && Size(MapPointer(pointee)) == 8
  {
  }

  lemma {:induction false} GoAlignAgrees(t: CType)
    requires WellFormed(t) && MapType(t).Some?
    ensures Align(MapType(t).value) == GoAlignOf(t)
    decreases t, 1
  {
    match t {
      case Scalar(kind, size, _) => ScalarFaithful(kind, size, MapType(t).value.basic);
      case Pointer(_, _, _) =>
      case ConstantArray(elem, _, _, _) => GoAlignAgrees(elem);
      case Record(decl, _, children, size, align) =>
        if decl.UnionDecl? {
          UnionLayout(size, align);
        } else {
          var em := EmitChildren(children).value;
          FieldsAlignAgrees(children);
          PaddingIsInvisible(em.lines, TailGap(em.tracker, size));
        }
    }
  }

  lemma {:induction false} FieldsAlignAgrees(cs: seq<Child>)
    requires WellFormedFields(cs) && EmitChildren(cs).Ok?
    ensures MaxAlign(EmitChildren(cs).value.lines) == GoAlignOfFields(cs)
    decreases cs, 0
  {
    if cs != [] {
      var n := |cs| - 1;
      FieldsAlignAgrees(cs[..n]);
      if cs[n].Field? {
        GoAlignAgrees(cs[n].ty);
        var em := EmitChildren(cs[..n]).value;
        var gap := GapBefore(em.tracker, cs[n].offsetBits);
        PaddingIsInvisible(em.lines, gap);
        var lines := EmitChildren(cs).value.lines;
        assert lines[..|lines| - 1] == em.lines + PaddingLines(gap);
      }
    }
  }

  /** A padding line moves the end and changes neither alignment nor named fields. */
  lemma {:induction false} PaddingIsInvisible(lines: seq<GoField>, gap: nat)
    ensures var padded := lines + PaddingLines(gap);
            MaxAlign(padded) == MaxAlign(lines) && NamedLayout(padded) == NamedLayout(lines)
            && End(padded) == End(lines) + gap
  {
    var padded := lines + PaddingLines(gap);
    if gap == 0 {
      assert padded == lines;
    } else {
      assert padded[..|padded| - 1] == lines;
      var pad := Padding(gap).ty;
      assert Align(pad) == 1;
      assert Size(pad) == gap * Size(Basic(Uint8)) == gap;
    }
  }

  /** What one more line changes. */
  lemma {:induction false} AppendLine(lines: seq<GoField>, f: GoField)
    ensures MaxAlign(lines + [f]) == Max(MaxAlign(lines), Align(f.ty))
    ensures End(lines + [f]) == NextAligned(End(lines), Align(f.ty)) + Size(f.ty)
    ensures NamedLayout(lines + [f]) == NamedLayout(lines) +
      if f.name == BLANK then [] else [Placed(f.name, f.ty, NextAligned(End(lines), Align(f.ty)))]
  {
    assert (lines + [f])[..|lines|] == lines && (lines + [f])[|lines|] == f;
  }

  lemma {:induction false} BytesLayout(size: int)
    requires size >= 0
    ensures var bytes := Array(size, Basic(Uint8)); Size(bytes) == size && Align(bytes) == 1
  {
    assert Size(Array(size, Basic(Uint8))) == size * Size(Basic(Uint8));
  }

  lemma {:induction false} StructSize(lines: seq<GoField>)
    requires lines != []
    ensures var end := End(lines);
      Size(Struct(lines))
      == NextAligned(if end > 0 && Size(lines[|lines| - 1].ty) == 0 then end + 1 else end, MaxAlign(lines))
  {
  }

  /** A zero-length array first raises the alignment of what follows and takes no room. */
  lemma {:induction false} MarkedLayout(marker: GoField, bytes: GoField)
    requires Size(marker.ty) == 0 && Align(bytes.ty) == 1 && Size(bytes.ty) > 0
    ensures var g := Struct([marker, bytes]);
      Align(g) == Align(marker.ty) && Size(g) == NextAligned(Size(bytes.ty), Align(marker.ty))
  {
    assert [] + [marker] == [marker] && [marker] + [bytes] == [marker, bytes];
    AppendLine([], marker);
    assert End([marker]) == 0;
    AppendLine([marker], bytes);
    StructSize([marker, bytes]);
  }

  lemma {:induction false} UnionLayout(size: int, align: int)
    requires size > 0
    ensures var g := MapUnion(size, align).value;
            var a := if align == 2 || align == 4 || align == 8 then align else 1;
            Align(g) == a && Size(g) == NextAligned(size, a) && HoldsBytes(g, size)
  {
    var g := MapUnion(size, align).value;
    BytesLayout(size);
    if g.Struct? {
      var marker, bytes := g.fields[0], g.fields[1];
      assert Size(marker.ty) == 0 * Size(marker.ty.elem);
      MarkedLayout(marker, bytes);
    }
  }

  /** Blank lines apart, the emitted lines are the C fields, faithful to them exactly when the
      fields meet both conditions; then the running Go offset is the C one. */
  ghost predicate FieldsHold(cs: seq<Child>, em: Emission) {
    && em.tracker.available && em.tracker.current == FieldsEnd(cs) >= 0
    && (FieldsFaithful(cs, NamedLayout(em.lines)) <==> FieldsAlignedForGo(cs) && FieldsNoZeroTail(cs))
    && (FieldsAlignedForGo(cs) && FieldsNoZeroTail(cs) ==>
          End(em.lines) == FieldsEnd(cs)
          && (em.realFields > 0 ==>
                em.lines != [] && Size(em.lines[|em.lines| - 1].ty) == LastFieldSize(cs)))
  }

  lemma {:induction false} FieldsFidelity(cs: seq<Child>)
    requires WellFormedFields(cs) && EmitChildren(cs).Ok?
    ensures FieldsHold(cs, EmitChildren(cs).value)
    decreases cs, 0
  {
    if cs == [] {
      return;
    }
    var n := |cs| - 1;
    FieldsFidelity(cs[..n]);
    if cs[n].Field? {
      Fidelity(cs[n].ty);
      GoAlignAgrees(cs[n].ty);
      var name := LastPlaced(cs);
      FieldsHoldAfter(cs, EmitChildren(cs[..n]).value, EmitChildren(cs).value, name, MapType(cs[n].ty).value);
    }
  }

  /** The last field's line, under some name, behind its padding. */
  lemma {:induction false} LastEmitted(cs: seq<Child>) returns (name: string)
    requires cs != [] && cs[|cs| - 1].Field? && EmitChildren(cs).Ok?
    ensures EmitChildren(cs[..|cs| - 1]).Ok? && MapType(cs[|cs| - 1].ty).Some?
    ensures var c := cs[|cs| - 1]; var em, em' := EmitChildren(cs[..|cs| - 1]).value, EmitChildren(cs).value;
      && name != BLANK && name !in em.seen && em'.seen == em.seen + {name}
      && name == FieldName(c.spelling, |cs|, em.seen)
      && em'.lines
         == em.lines + PaddingLines(GapBefore(em.tracker, c.offsetBits)) + [GoField(name, MapType(c.ty).value)]
      && em'.tracker == AfterField(AfterGap(em.tracker, c.offsetBits), c.ty.size)
  {
    var em := EmitChildren(cs[..|cs| - 1]).value;
    name := FieldName(cs[|cs| - 1].spelling, |cs|, em.seen);
    FieldNameNotBlank(cs[|cs| - 1].spelling, |cs|, em.seen);
  }

  lemma {:induction false} LastPlaced(cs: seq<Child>) returns (name: string)
    requires cs != [] && cs[|cs| - 1].Field? && EmitChildren(cs).Ok?
    ensures EmitChildren(cs[..|cs| - 1]).Ok? && MapType(cs[|cs| - 1].ty).Some?
    ensures PlacedAfter(EmitChildren(cs[..|cs| - 1]).value, EmitChildren(cs).value, cs[|cs| - 1],
                        name, MapType(cs[|cs| - 1].ty).value)
  {
    name := LastEmitted(cs);
    PlacedLine(EmitChildren(cs[..|cs| - 1]).value, EmitChildren(cs).value, cs[|cs| - 1],
               name, MapType(cs[|cs| - 1].ty).value);
  }

  lemma {:induction false} PlacedLine(em: Emission, em': Emission, c: Child, name: string, g: GoType)
    requires c.Field? && name != BLANK
    requires em'.lines == em.lines + PaddingLines(GapBefore(em.tracker, c.offsetBits)) + [GoField(name, g)]
    requires em'.tracker == AfterField(AfterGap(em.tracker, c.offsetBits), c.ty.size)
    ensures PlacedAfter(em, em', c, name, g)
  {
    var padded := Padded(em.lines, GapBefore(em.tracker, c.offsetBits));
    AppendLine(padded, GoField(name, g));
    assert em'.lines == padded + [GoField(name, g)];
  }

  /** Lines behind their padding, by what matters of them. */
  lemma {:induction false} Padded(lines: seq<GoField>, gap: nat) returns (padded: seq<GoField>)
    ensures padded == lines + PaddingLines(gap)
    ensures MaxAlign(padded) == MaxAlign(lines) && NamedLayout(padded) == NamedLayout(lines)
    ensures End(padded) == End(lines) + gap
    ensures if gap > 0 then padded != [] && Size(padded[|padded| - 1].ty) == gap else padded == lines
  {
    padded := lines + PaddingLines(gap);
    PaddingIsInvisible(lines, gap);
    if gap > 0 {
      BytesLayout(gap);
    }
  }

  /** What one more field adds to the conditions. */
  lemma {:induction false} ConditionsSnoc(cs: seq<Child>)
    requires cs != [] && cs[|cs| - 1].Field?
    ensures var init, c := cs[..|cs| - 1], cs[|cs| - 1];
      && (FieldsAlignedForGo(cs) <==>
            FieldsAlignedForGo(init) && IsMultiple(c.offsetBits / 8, GoAlignOf(c.ty)) && AlignedForGo(c.ty))
      && (FieldsNoZeroTail(cs) <==> FieldsNoZeroTail(init) && NoZeroTail(c.ty))
      && FieldsEnd(cs) == c.offsetBits / 8 + c.ty.size && LastFieldSize(cs) == c.ty.size
  {
  }

  /** While the Go offset is the C one, the next field starts where C has it exactly when that offset
      is a multiple of its alignment. */
  lemma {:induction false} StartExact(end: nat, tr: Tracker, offsetBits: int, a: nat)
    requires tr.available && tr.current == end <= offsetBits / 8 && offsetBits % 8 == 0
    requires a == 1 || a == 2 || a == 4 || a == 8
    ensures end + GapBefore(tr, offsetBits) == offsetBits / 8
    ensures var start := NextAligned(end + GapBefore(tr, offsetBits), a);
      (start * 8 == offsetBits <==> IsMultiple(offsetBits / 8, a))
      && (IsMultiple(offsetBits / 8, a) ==> start == offsetBits / 8)
  {
    NextAlignedExact(offsetBits / 8, a);
  }

  /** The emission `em'` puts one more field, of Go type `g`, at `start`. */
  ghost predicate PlacedAfter(em: Emission, em': Emission, c: Child, name: string, g: GoType)
    requires c.Field?
  {
    var start := NextAligned(End(em.lines) + GapBefore(em.tracker, c.offsetBits), Align(g));
    && End(em'.lines) == start + Size(g)
    && NamedLayout(em'.lines) == NamedLayout(em.lines) + [Placed(name, g, start)]
    && em'.lines != [] && em'.lines[|em'.lines| - 1].ty == g
    && em'.tracker == AfterField(AfterGap(em.tracker, c.offsetBits), c.ty.size)
  }

  /** Faithful fields before: the new one starts where C has it exactly when its offset is aligned. */
  lemma {:induction false} StartsThere(c: Child, em: Emission, start: nat, a: nat)
    requires c.Field? && em.tracker.available && em.tracker.current == End(em.lines) <= c.offsetBits / 8
    requires c.offsetBits % 8 == 0 && (a == 1 || a == 2 || a == 4 || a == 8)
    requires start == NextAligned(End(em.lines) + GapBefore(em.tracker, c.offsetBits), a)
    ensures start * 8 == c.offsetBits <==> IsMultiple(c.offsetBits / 8, a)
    ensures IsMultiple(c.offsetBits / 8, a) ==> start == c.offsetBits / 8
  {
    StartExact(End(em.lines), em.tracker, c.offsetBits, a);
  }

  lemma {:induction false} FieldsHoldAfter(cs: seq<Child>, em: Emission, em': Emission, name: string, g: GoType)
    requires cs != [] && WellFormedFields(cs) && cs[|cs| - 1].Field?
    requires FieldsHold(cs[..|cs| - 1], em) && PlacedAfter(em, em', cs[|cs| - 1], name, g)
    requires var ty := cs[|cs| - 1].ty;
      Align(g) == GoAlignOf(ty) && (Faithful(ty, g) <==> AlignedForGo(ty) && NoZeroTail(ty))
    ensures FieldsHold(cs, em')
  {
    var c := cs[|cs| - 1];
    var start := NextAligned(End(em.lines) + GapBefore(em.tracker, c.offsetBits), Align(g));
    ConditionsSnoc(cs);
    FaithfulSnoc(cs, NamedLayout(em.lines), Placed(name, g, start));
    if FieldsAlignedForGo(cs[..|cs| - 1]) && FieldsNoZeroTail(cs[..|cs| - 1]) {
      StartsThere(c, em, start, Align(g));
      assert Faithful(c.ty, g) ==> Size(g) == c.ty.size;
    }
  }

  lemma {:induction false} FaithfulSnoc(cs: seq<Child>, placed: seq<Placed>, last: Placed)
    requires cs != [] && cs[|cs| - 1].Field?
    ensures var c := cs[|cs| - 1];
      FieldsFaithful(cs, placed + [last]) <==>
        FieldsFaithful(cs[..|cs| - 1], placed) && last.offset * 8 == c.offsetBits && Faithful(c.ty, last.ty)
  {
    assert (placed + [last])[..|placed|] == placed && (placed + [last])[|placed|] == last;
  }

  /** When a struct ends where its last field does. */
  lemma {:induction false} SizeExact(all: seq<GoField>)
    requires all != []
    ensures Size(Struct(all)) == End(all) <==>
      NextAligned(End(all), MaxAlign(all)) == End(all) && !(End(all) > 0 && Size(all[|all| - 1].ty) == 0)
  {
    StructSize(all);
  }

  lemma {:induction false} FieldNameNotBlank(spelling: string, index: nat, seen: set<string>)
    ensures FieldName(spelling, index, seen) != BLANK
  {
    var fallback := "field_" + Decimal.Format(index);
    Identifiers.StructFieldNotBlank(spelling, fallback);
    var base := Identifiers.SanitizeStructField(spelling, fallback);
    if base in seen {
      var k := Identifiers.FirstFree(base, seen, 2);
      Decimal.ParseFormat(k);
      assert |Identifiers.Suffixed(base, k)| > 1;
    }
  }

  /** The size of a struct whose fields hold, all lines with the tail padding given. */
  lemma {:induction false} StructHolds(cs: seq<Child>, em: Emission, size: int, all: seq<GoField>)
    requires FieldsHold(cs, em) && FieldsEnd(cs) <= size && em.realFields > 0
    requires FieldsAlignedForGo(cs) && FieldsNoZeroTail(cs) && MaxAlign(em.lines) == GoAlignOfFields(cs)
    requires MaxAlign(all) == MaxAlign(em.lines) && End(all) == size && all != []
    requires if size > FieldsEnd(cs) then Size(all[|all| - 1].ty) > 0 else all == em.lines
    ensures Size(Struct(all)) == size <==>
      IsMultiple(size, GoAlignOfFields(cs)) && !(size > 0 && LastFieldSize(cs) == 0 && FieldsEnd(cs) == size)
  {
    SizeExact(all);
    NextAlignedExact(size, MaxAlign(all));
  }

  /** The struct that the fields' lines and the tail padding make. */
  lemma {:induction false} MappedStruct(t: CType, all: seq<GoField>)
    requires t.Record? && t.decl.StructDecl? && MapType(t).Some?
    requires EmitChildren(t.children).Ok? ==>
      var em := EmitChildren(t.children).value; all == em.lines + PaddingLines(TailGap(em.tracker, t.size))
    ensures EmitChildren(t.children).Ok? && EmitChildren(t.children).value.realFields > 0
    ensures MapType(t).value == Struct(all)
  {
  }

  lemma {:induction false} StructFidelity(t: CType)
    requires t.Record? && t.decl.StructDecl?
    requires WellFormed(t) && MapType(t).Some?
    ensures Faithful(t, MapType(t).value) <==> AlignedForGo(t) && NoZeroTail(t)
    decreases t, 0
  {
    assert EmitChildren(t.children).Ok?;
    var em := EmitChildren(t.children).value;
    FieldsFidelity(t.children);
    FieldsAlignAgrees(t.children);
    var all := Padded(em.lines, TailGap(em.tracker, t.size));
    MappedStruct(t, all);
    if FieldsAlignedForGo(t.children) && FieldsNoZeroTail(t.children) {
      StructHolds(t.children, em, t.size, all);
    }
  }

  /** The main result: fidelity holds exactly under the two conditions. */
  lemma {:induction false} Fidelity(t: CType)
    requires WellFormed(t) && MapType(t).Some?
    ensures Faithful(t, MapType(t).value) <==> AlignedForGo(t) && NoZeroTail(t)
    decreases t, 1
  {
    match t {
      case Scalar(kind, size, _) => ScalarFaithful(kind, size, MapType(t).value.basic);
      case Pointer(pointee, _, _) => PointerFaithful(pointee);
      case ConstantArray(elem, count, _, _) =>
        Fidelity(elem);
        if !Faithful(elem, MapType(elem).value) {
          assert !Faithful(t, MapType(t).value);
        }
      case Record(decl, _, children, size, align) =>
        if decl.UnionDecl? {
          UnionLayout(size, align);
          NextAlignedExact(size, GoAlignOf(t));
        } else {
          StructFidelity(t);
        }
    }
  }
}
