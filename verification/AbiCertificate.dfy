/** How the layout check and the struct emission fit together: a record that passes the check has
    the layout the emission relies on, so its Go struct is faithful up to the zero-size tail. */
module AbiCertificate {
  import opened Alignment
  import opened CTypes
  import opened GoLayout
  import opened TypeMapping
  import opened LayoutFidelity
  import opened RecordDecls
  import opened Options
  import AbiLayout

  /** Types laid out without packing: every object at a multiple of its type's alignment, every
      alignment dividing that of the enclosing record, every size a multiple of the alignment
      (section 3.1.2 of the System V AMD64 ABI). */
  predicate Natural(t: CType)
    decreases t
  {
    match t
    case Scalar(kind, size, align) => kind.OtherKind? || align == size
    case Pointer(_, _, align) => align == 8
    case ConstantArray(elem, _, _, align) => Natural(elem) && align == elem.align
    case Record(decl, _, children, size, align) =>
      IsMultiple(size, align) && (decl.StructDecl? ==> NaturalFields(children, align))
  }

  predicate NaturalFields(cs: seq<Child>, align: int)
    decreases cs
  {
    cs != [] ==>
      && NaturalFields(cs[..|cs| - 1], align)
      && match cs[|cs| - 1]
         case NestedDecl => true
         case Field(_, offsetBits, _, ty) =>
           Natural(ty) && IsMultiple(offsetBits / 8, ty.align) && IsMultiple(align, ty.align)
  }

  lemma {:induction false} IsMultipleTransitive(c: int, b: int, a: int)
    requires IsMultiple(c, b) && IsMultiple(b, a)
    ensures IsMultiple(c, a)
  {
    DividesTransitive(a, b, c);
  }

  /** Without packing the Go alignment divides the C alignment and the first condition holds. */
  lemma {:induction false} NaturalIsAligned(t: CType)
    requires WellFormed(t) && Natural(t) && MapType(t).Some?
    ensures AlignedForGo(t) && IsMultiple(t.align, GoAlignOf(t))
    decreases t, 1
  {
    match t {
      case Scalar(kind, size, align) => ScalarFaithful(kind, size, MapType(t).value.basic);
      case Pointer(_, _, _) =>
      case ConstantArray(elem, _, _, _) => NaturalIsAligned(elem);
      case Record(decl, _, children, size, align) =>
        if decl.UnionDecl? {
        } else {
          NaturalFieldsAligned(children, align);
        }
        IsMultipleTransitive(size, align, GoAlignOf(t));
    }
  }

  lemma {:induction false} NaturalFieldsAligned(cs: seq<Child>, align: int)
    requires WellFormedFields(cs) && NaturalFields(cs, align) && align > 0 && EmitChildren(cs).Ok?
    ensures FieldsAlignedForGo(cs) && IsMultiple(align, GoAlignOfFields(cs))
    decreases cs, 0
  {
    if cs == [] {
      return;
    }
    var n := |cs| - 1;
    NaturalFieldsAligned(cs[..n], align);
    if cs[n].Field? {
      var ty := cs[n].ty;
      NaturalIsAligned(ty);
      IsMultipleTransitive(cs[n].offsetBits / 8, ty.align, GoAlignOf(ty));
      IsMultipleTransitive(align, ty.align, GoAlignOf(ty));
    }
  }

  /** The layout theorem for types laid out without packing: the Go type is faithful exactly when
      no struct ends in a zero-size field, and its alignment divides the C alignment. */
  lemma {:induction false} NaturalFidelity(t: CType)
    requires WellFormed(t) && Natural(t) && MapType(t).Some?
    ensures Faithful(t, MapType(t).value) <==> NoZeroTail(t)
    ensures IsMultiple(t.align, Align(MapType(t).value))
  {
    NaturalIsAligned(t);
    GoAlignAgrees(t);
    Fidelity(t);
  }

  // ---- conservation ----

  function BlankBytes(lines: seq<GoField>): nat {
    if lines == [] then 0
    else
      var last := lines[|lines| - 1];
      BlankBytes(lines[..|lines| - 1]) + if last.name == BLANK then Size(last.ty) else 0
  }

  function FieldBytes(cs: seq<Child>): int {
    if cs == [] then 0
    else FieldBytes(cs[..|cs| - 1]) + match cs[|cs| - 1] case NestedDecl => 0 case Field(_, _, _, ty) => ty.size
  }

  lemma {:induction false} BlankBytesOfPadding(lines: seq<GoField>, gap: nat)
    ensures BlankBytes(lines + PaddingLines(gap)) == BlankBytes(lines) + gap
  {
    var padded := lines + PaddingLines(gap);
    if gap == 0 {
      assert padded == lines;
    } else {
      assert padded[..|padded| - 1] == lines;
      assert Size(Padding(gap).ty) == gap * Size(Basic(Uint8));
    }
  }

  lemma {:induction false} FieldsConserveBytes(cs: seq<Child>)
    requires WellFormedFields(cs) && EmitChildren(cs).Ok?
    ensures BlankBytes(EmitChildren(cs).value.lines) + FieldBytes(cs) == FieldsEnd(cs)
  {
    if cs != [] {
      var n := |cs| - 1;
      FieldsConserveBytes(cs[..n]);
      if cs[n].Field? {
        FieldsFidelity(cs[..n]);
        var em, em' := EmitChildren(cs[..n]).value, EmitChildren(cs).value;
        var gap := GapBefore(em.tracker, cs[n].offsetBits);
        BlankBytesOfPadding(em.lines, gap);
        FieldNameNotBlank(cs[n].spelling, |cs|, em.seen);
        assert em'.lines[..|em'.lines| - 1] == em.lines + PaddingLines(gap);
      }
    }
  }

  /** Conservation: explicit padding plus field sizes is the C size, packed structs included. */
  lemma {:induction false} PaddingConservesBytes(t: CType)
    requires t.Record? && t.decl.StructDecl? && WellFormed(t) && MapRecord(t).Ok?
    ensures BlankBytes(MapRecord(t).value.fields) + FieldBytes(t.children) == t.size
  {
    FieldsFidelity(t.children);
    FieldsConserveBytes(t.children);
    var em := EmitChildren(t.children).value;
    BlankBytesOfPadding(em.lines, TailGap(em.tracker, t.size));
  }

  // ---- a passed check ----

  /** Field types are complete object types laid out without packing, with power-of-two
      alignments (section 6.2.8 of ISO/IEC 9899:2011). */
  predicate SoundFieldTypes(cs: seq<Child>)
    decreases cs
  {
    cs != [] ==>
      && SoundFieldTypes(cs[..|cs| - 1])
      && match cs[|cs| - 1]
         case NestedDecl => true
         case Field(_, _, _, ty) => WellFormed(ty) && Natural(ty) && PowerOfTwo(ty.align)
  }

  lemma {:induction false} CanonicalChildren(cs: seq<Child>, align: int)
    requires EmitChildren(cs).Ok? && SoundFieldTypes(cs)
    requires AbiLayout.CanonicalFields(ExtractChildren(cs).fields)
    requires PowerOfTwo(align)
    requires forall i :: 0 <= i < |ExtractChildren(cs).fields| ==>
      AbiLayout.AlignOf(ExtractChildren(cs).fields[i]) <= align
    ensures WellFormedFields(cs) && NaturalFields(cs, align)
    ensures AbiLayout.ReportedEnd(ExtractChildren(cs).fields) == FieldsEnd(cs)
  {
    if cs != [] {
      var n := |cs| - 1;
      var init := ExtractChildren(cs[..n]).fields;
      var fields := ExtractChildren(cs).fields;
      if cs[n].Field? {
        assert fields[..|fields| - 1] == init;
        forall i | 0 <= i < |init| ensures init[i] == fields[i] {}
        CanonicalChildren(cs[..n], align);
        var last := fields[|fields| - 1];
        assert AbiLayout.AlignOf(last) <= align;
        PowersDivide(cs[n].ty.align, align);
      } else {
        CanonicalChildren(cs[..n], align);
      }
    }
  }

  /** A struct with sound field types that passes the check is well formed and laid out without
      packing; so its Go struct is faithful exactly when it has no zero-size tail. */
  lemma {:induction false} PassedCheckCertifies(name: string, t: CType)
    requires t.Record? && t.decl.StructDecl? && MapRecord(t).Ok? && SoundFieldTypes(t.children)
    requires AbiLayout.Validate(ExtractRecord(name, t)) == []
    ensures WellFormed(t) && Natural(t)
    ensures Faithful(t, MapRecord(t).value) <==> NoZeroTail(t)
  {
    var r := ExtractRecord(name, t);
    AbiLayout.StructCheckExact(r);
    GreatestIsPower(t.children, t.align);
    CanonicalChildren(t.children, t.align);
    assert WellFormed(t) && Natural(t);
    NaturalFidelity(t);
  }

  lemma {:induction false} FieldAlignIsPower(cs: seq<Child>, i: nat)
    requires SoundFieldTypes(cs) && i < |ExtractChildren(cs).fields|
    ensures PowerOfTwo(AbiLayout.AlignOf(ExtractChildren(cs).fields[i]))
  {
    var n := |cs| - 1;
    if i < |ExtractChildren(cs[..n]).fields| {
      FieldAlignIsPower(cs[..n], i);
    }
  }

  lemma {:induction false} GreatestIsPower(cs: seq<Child>, align: int)
    requires SoundFieldTypes(cs) && AbiLayout.GreatestAlign(ExtractChildren(cs).fields, align)
    ensures PowerOfTwo(align)
  {
    if align > 1 {
      var i :| 0 <= i < |ExtractChildren(cs).fields| && AbiLayout.AlignOf(ExtractChildren(cs).fields[i]) == align;
      FieldAlignIsPower(cs, i);
    }
  }

  // ---- the conditions are needed ----

  lemma {:induction false} TwoFields(cs: seq<Child>)
    requires |cs| == 2 && cs[0].Field? && cs[1].Field?
    requires WellFormed(cs[0].ty) && WellFormed(cs[1].ty) && cs[0].ty.size >= 0 && cs[1].ty.size >= 0
    requires cs[0].offsetBits == 0 && cs[1].offsetBits % 8 == 0 && cs[0].ty.size <= cs[1].offsetBits / 8
    ensures WellFormedFields(cs) && FieldsEnd(cs) == cs[1].offsetBits / 8 + cs[1].ty.size
    ensures FieldsNoZeroTail(cs) <==> NoZeroTail(cs[0].ty) && NoZeroTail(cs[1].ty)
    ensures LastFieldSize(cs) == cs[1].ty.size
    ensures FieldsAlignedForGo(cs) <==>
      && AlignedForGo(cs[0].ty) && AlignedForGo(cs[1].ty)
      && IsMultiple(0, GoAlignOf(cs[0].ty)) && IsMultiple(cs[1].offsetBits / 8, GoAlignOf(cs[1].ty))
    ensures GoAlignOfFields(cs) == Max(Max(1, GoAlignOf(cs[0].ty)), GoAlignOf(cs[1].ty))
  {
    var one := cs[..1];
    assert one[..|one| - 1] == [] && one[|one| - 1] == cs[0];
    assert FieldsEnd(one[..|one| - 1]) == 0;
    assert FieldsEnd(one) == cs[0].ty.size && WellFormedFields(one);
    assert GoAlignOfFields(one) == Max(1, GoAlignOf(cs[0].ty));
    assert FieldsNoZeroTail(one) <==> NoZeroTail(cs[0].ty);
    assert FieldsAlignedForGo(one) <==> AlignedForGo(cs[0].ty) && IsMultiple(0, GoAlignOf(cs[0].ty));
  }

  /** `struct __attribute__((packed)) { char a; int b; }`: Go places `b` at 4, C at 1. */
  lemma {:induction false} PackedStructIsNotFaithful()
    ensures var t := Record(StructDecl, true,
                      [Field("a", 0, false, Scalar(CharS, 1, 1)), Field("b", 8, false, Scalar(Int, 4, 4))], 5, 1);
      WellFormed(t) && MapType(t).Some? && NoZeroTail(t) && !Faithful(t, MapType(t).value)
  {
    var t := Record(StructDecl, true,
                    [Field("a", 0, false, Scalar(CharS, 1, 1)), Field("b", 8, false, Scalar(Int, 4, 4))], 5, 1);
    TwoFields(t.children);
    assert t.children[0].Field?;
    MappedIffSupported(t);
    Fidelity(t);
  }

  /** `struct { int n; int tail[0]; }`: the Go compiler adds a byte after `tail`. */
  lemma {:induction false} ZeroTailIsNotFaithful()
    ensures var t := Record(StructDecl, true,
                      [Field("n", 0, false, Scalar(Int, 4, 4)),
                       Field("tail", 32, false, ConstantArray(Scalar(Int, 4, 4), 0, 0, 4))], 4, 4);
      WellFormed(t) && MapType(t).Some? && AlignedForGo(t) && !Faithful(t, MapType(t).value)
  {
    var t := Record(StructDecl, true,
                    [Field("n", 0, false, Scalar(Int, 4, 4)),
                     Field("tail", 32, false, ConstantArray(Scalar(Int, 4, 4), 0, 0, 4))], 4, 4);
    TwoFields(t.children);
    assert GoAlignOf(t) == 4 && AlignedForGo(t) && !NoZeroTail(t);
    assert t.children[0].Field?;
    MappedIffSupported(t);
    Fidelity(t);
  }
}
