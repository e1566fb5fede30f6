/** The names of struct fields, in the emitted struct and in the record metadata, from the spellings
    in the C declaration (src/purego_gen/clang_type_mapping.py). */
module FieldNames {
  import opened CTypes
  import opened GoLayout
  import opened TypeMapping
  import opened RecordDecls
  import opened Options
  import opened Text
  import Decimal
  import Identifiers
  import LayoutFidelity

  /** The name for the spelling of the `index`-th child, among names already taken. */
  ghost predicate IsFieldName(name: string, spelling: string, index: nat, taken: set<string>) {
    exists base :: Identifiers.IsSanitized(spelling, "field_" + Decimal.Format(index), "f_", true, base)
                && Identifiers.IsLeastUnused(name, base, taken)
  }

  lemma {:induction false} FieldNameExact(spelling: string, index: nat, seen: set<string>)
    ensures IsFieldName(FieldName(spelling, index, seen), spelling, index, seen)
  {
    var fallback := "field_" + Decimal.Format(index);
    Identifiers.SanitizeExact(spelling, fallback, "f_", true);
    Identifiers.AllocateExact(Identifiers.SanitizeStructField(spelling, fallback), seen);
  }

  function PlacedNames(placed: seq<Placed>): set<string> {
    set i | 0 <= i < |placed| :: placed[i].name
  }

  /** Each field is named after its spelling, against the fields before it. */
  ghost predicate NamesFollow(cs: seq<Child>, placed: seq<Placed>) {
    if cs == [] then placed == []
    else
      var init := cs[..|cs| - 1];
      match cs[|cs| - 1]
      case NestedDecl => NamesFollow(init, placed)
      case Field(spelling, _, _, _) =>
        placed != [] && var before := placed[..|placed| - 1];
        NamesFollow(init, before) && IsFieldName(placed[|placed| - 1].name, spelling, |cs|, PlacedNames(before))
  }

  lemma {:induction false} NamesSnoc(placed: seq<Placed>, last: Placed)
    ensures PlacedNames(placed + [last]) == PlacedNames(placed) + {last.name}
  {
    var all := placed + [last];
    forall name | name in PlacedNames(placed) ensures name in PlacedNames(all) {
      var i :| 0 <= i < |placed| && placed[i].name == name;
      assert all[i].name == name;
    }
    assert all[|placed|] == last;
  }

  lemma {:induction false} EmittedNames(cs: seq<Child>)
    requires EmitChildren(cs).Ok?
    ensures var em := EmitChildren(cs).value;
      NamesFollow(cs, NamedLayout(em.lines)) && em.seen == PlacedNames(NamedLayout(em.lines))
  {
    if cs != [] {
      var n := |cs| - 1;
      EmittedNames(cs[..n]);
      if cs[n].Field? {
        LastNamed(cs);
      }
    }
  }

  lemma {:induction false} LastNamed(cs: seq<Child>)
    requires cs != [] && cs[|cs| - 1].Field? && EmitChildren(cs).Ok? && EmitChildren(cs[..|cs| - 1]).Ok?
    requires var em := EmitChildren(cs[..|cs| - 1]).value;
      NamesFollow(cs[..|cs| - 1], NamedLayout(em.lines)) && em.seen == PlacedNames(NamedLayout(em.lines))
    ensures var em := EmitChildren(cs).value;
      NamesFollow(cs, NamedLayout(em.lines)) && em.seen == PlacedNames(NamedLayout(em.lines))
  {
    var c, em, em' := cs[|cs| - 1], EmitChildren(cs[..|cs| - 1]).value, EmitChildren(cs).value;
    var name := LayoutFidelity.LastEmitted(cs);
    FieldNameExact(c.spelling, |cs|, em.seen);
    LayoutFidelity.PlacedLine(em, em', c, name, MapType(c.ty).value);
    var placed := NamedLayout(em'.lines);
    assert placed == NamedLayout(em.lines) + [placed[|placed| - 1]] && placed[|placed| - 1].name == name;
    assert placed[..|placed| - 1] == NamedLayout(em.lines);
    NamesSnoc(NamedLayout(em.lines), placed[|placed| - 1]);
  }

  /** The emitted struct names its fields after their spellings. */
  lemma {:induction false} StructNames(t: CType)
    requires t.Record? && t.decl.StructDecl? && MapRecord(t).Ok?
    ensures NamesFollow(t.children, NamedLayout(MapRecord(t).value.fields))
  {
    var em := EmitChildren(t.children).value;
    EmittedNames(t.children);
    LayoutFidelity.PaddingIsInvisible(em.lines, TailGap(em.tracker, t.size));
  }

  // ---- the record metadata ----

  function GivenNames(fields: seq<FieldDecl>): set<string> {
    set i | 0 <= i < |fields| && fields[i].goName.Some? :: fields[i].goName.value
  }

  /** What is wrong with a field, the first of the three that applies. */
  ghost predicate IsProblem(c: Child, code: Code)
    requires c.Field?
  {
    match code
    case UnsupportedAnonymousField => c.spelling == ""
    case UnsupportedBitfield => c.spelling != "" && c.bitfield
    case UnsupportedFieldType => c.spelling != "" && !c.bitfield && !Supported(c.ty)
    case _ => false
  }

  /** A metric that libclang gives, or none for its negative error codes. */
  predicate IsMetric(m: Option<int>, raw: int) {
    (raw >= 0 ==> m == Some(raw)) && (raw < 0 ==> m == None)
  }

  /** One field's metadata: names and types for supported fields only, the problem for the others. */
  ghost predicate IsRecorded(f: FieldDecl, c: Child, index: nat, taken: set<string>)
    requires c.Field?
  {
    && f.name == (if c.spelling == "" then "<anonymous field #" + Decimal.Format(index) + ">" else c.spelling)
    && IsMetric(f.offsetBits, c.offsetBits) && IsMetric(f.sizeBytes, c.ty.size) && IsMetric(f.alignBytes, c.ty.align)
    && (f.supported <==> ChildSupported(c)) && (f.unsupportedCode.Some? <==> !f.supported)
    && (f.goName.Some? <==> f.supported) && (f.supported ==> IsFieldName(f.goName.value, c.spelling, index, taken))
    && f.goType == (if f.supported then MapType(c.ty) else None)
    && (f.unsupportedCode.Some? ==> IsProblem(c, f.unsupportedCode.value))
  }

  /** The metadata list the fields in order; each is named against those before it. */
  ghost predicate FieldsRecorded(cs: seq<Child>, fields: seq<FieldDecl>) {
    if cs == [] then fields == []
    else
      var init := cs[..|cs| - 1];
      match cs[|cs| - 1]
      case NestedDecl => FieldsRecorded(init, fields)
      case Field(_, _, _, _) =>
        fields != [] && var before := fields[..|fields| - 1];
        FieldsRecorded(init, before) && IsRecorded(fields[|fields| - 1], cs[|cs| - 1], |cs|, GivenNames(before))
  }

  lemma {:induction false} RecordedExact(c: Child, index: nat, seen: set<string>)
    requires c.Field?
    ensures IsRecorded(ExtractField(c, index, seen), c, index, seen)
  {
    MappedIffSupported(c.ty);
    FieldNameExact(c.spelling, index, seen);
  }

  lemma {:induction false} GivenSnoc(fields: seq<FieldDecl>, f: FieldDecl)
    ensures GivenNames(fields + [f])
         == if f.goName.Some? then GivenNames(fields) + {f.goName.value} else GivenNames(fields)
  {
    var all := fields + [f];
    forall name | name in GivenNames(fields) ensures name in GivenNames(all) {
      var i :| 0 <= i < |fields| && fields[i].goName.Some? && fields[i].goName.value == name;
      assert all[i] == fields[i];
    }
    assert all[|fields|] == f;
  }

  lemma {:induction false} ChildrenRecorded(cs: seq<Child>)
    ensures var ex := ExtractChildren(cs); FieldsRecorded(cs, ex.fields) && ex.seen == GivenNames(ex.fields)
  {
    if cs != [] {
      var n := |cs| - 1;
      ChildrenRecorded(cs[..n]);
      if cs[n].Field? {
        var before := ExtractChildren(cs[..n]);
        var f := ExtractField(cs[n], |cs|, before.seen);
        RecordedExact(cs[n], |cs|, before.seen);
        GivenSnoc(before.fields, f);
        assert ExtractChildren(cs).fields == before.fields + [f];
      }
    }
  }

  /** The first child that is a field the generator does not support. */
  ghost predicate FirstProblem(cs: seq<Child>, i: nat) {
    && i < |cs| && !ChildSupported(cs[i])
    && forall j {:trigger cs[j]} :: 0 <= j < i ==> ChildSupported(cs[j])
  }

  /** Why a record is not mapped. */
  ghost predicate IsReason(t: CType, code: Code)
    requires t.Record?
  {
    match t.decl
    case OtherDecl => code == UnsupportedRecordKind
    case UnionDecl => code == UnsupportedUnionSize && t.size <= 0
    case StructDecl =>
      if !t.defined then code == OpaqueIncompleteStruct
      else if exists i {:trigger t.children[i]} :: 0 <= i < |t.children| && !ChildSupported(t.children[i]) then
        exists i: nat {:trigger t.children[i]} :: FirstProblem(t.children, i) && IsProblem(t.children[i], code)
      else code == NoSupportedFields && forall i {:trigger t.children[i]} :: 0 <= i < |t.children| ==>
        !t.children[i].Field?
  }

  lemma {:induction false} EmissionFails(cs: seq<Child>) returns (i: nat)
    requires EmitChildren(cs).Unsupported?
    ensures FirstProblem(cs, i) && IsProblem(cs[i], EmitChildren(cs).code)
  {
    var n := |cs| - 1;
    forall j | 0 <= j < n ensures cs[..n][j] == cs[j] {}
    if EmitChildren(cs[..n]).Unsupported? {
      i := EmissionFails(cs[..n]);
    } else {
      EmittedIffSupported(cs[..n]);
      MappedIffSupported(cs[n].ty);
      i := n;
    }
  }

  lemma {:induction false} ReasonExact(t: CType)
    requires t.Record? && MapRecord(t).Unsupported?
    ensures IsReason(t, MapRecord(t).code)
  {
    if t.decl.StructDecl? && t.defined {
      EmittedIffSupported(t.children);
      if EmitChildren(t.children).Unsupported? {
        var i := EmissionFails(t.children);
      }
    }
  }

  /** The metadata of a record, mapped or not. */
  lemma {:induction false} RecordExact(name: string, t: CType)
    requires t.Record?
    ensures var r := ExtractRecord(name, t);
      && r.name == name && r.kind == t.decl && FieldsRecorded(t.children, r.fields)
      && IsMetric(r.sizeBytes, t.size) && IsMetric(r.alignBytes, t.align)
      && (r.supported <==> Supported(t)) && (r.supported <==> r.unsupportedCode.None?)
      && (r.unsupportedCode.Some? ==> IsReason(t, r.unsupportedCode.value))
      && (r.incomplete <==> t.decl.StructDecl? && !t.defined)
      && (r.incomplete ==> !r.supported)
  {
    ChildrenRecorded(t.children);
    MappedIffSupported(t);
    if MapRecord(t).Unsupported? {
      ReasonExact(t);
    }
  }

  // ---- spellings that are kept ----

  /** A spelling that Go accepts and that no earlier field took is the name of its field. */
  lemma {:induction false} SpellingKept(spelling: string, index: nat, taken: set<string>, name: string)
    requires IsIdentifier(spelling) && !Identifiers.IsGoKeyword(spelling)
    requires spelling[0] != '_' && spelling[|spelling| - 1] != '_' && spelling !in taken
    requires IsFieldName(name, spelling, index, taken)
    ensures name == spelling
  {
    var base :| Identifiers.IsSanitized(spelling, "field_" + Decimal.Format(index), "f_", true, base)
             && Identifiers.IsLeastUnused(name, base, taken);
    var a, core, b :| Identifiers.Squeezed(spelling, false) == a + core + b
      && Identifiers.Underscores(a) && Identifiers.Underscores(b)
      && (core == "" || (core[0] != '_' && core[|core| - 1] != '_'))
      && Identifiers.IsNameOf(if core == "" then "field_" + Decimal.Format(index) else core, "f_", base);
    SqueezedIdentity(spelling);
    NoneStripped(spelling, a, core, b);
  }

  lemma {:induction false} NoneStripped(s: string, a: string, core: string, b: string)
    requires s == a + core + b && Identifiers.Underscores(a) && Identifiers.Underscores(b)
    requires s != "" && s[0] != '_' && s[|s| - 1] != '_'
    ensures core == s
  {
    assert s[..|a|] == a && s[|s| - |b|..] == b;
    if a != "" || b != "" {
      assert false;
    }
  }

  lemma {:induction false} SqueezedIdentity(s: string)
    requires Identifiers.WordChars(s)
    ensures Identifiers.Squeezed(s, false) == s
  {
    if s != "" {
      SqueezedIdentity(s[1..]);
    }
  }

  lemma {:induction false} OneField(c: Child)
    requires c.Field? && c.spelling != "" && !c.bitfield && c.offsetBits == 0 && c.ty.size > 0 && MapType(c.ty).Some?
    requires IsIdentifier(c.spelling) && !Identifiers.IsGoKeyword(c.spelling)
    requires c.spelling[0] != '_' && c.spelling[|c.spelling| - 1] != '_'
    ensures EmitChildren([c]) == Ok(Emission([GoField(c.spelling, MapType(c.ty).value)], {c.spelling}, 1,
                                             Tracker(c.ty.size, true, 0)))
  {
    assert [c][..0] == [] && [c][0] == c && EmitChildren([]) == Ok(Emission([], {}, 0, START));
    Identifiers.FieldIdentity(c.spelling, "field_" + Decimal.Format(1));
    assert FieldName(c.spelling, 1, {}) == c.spelling;
    var em := EmitField(Emission([], {}, 0, START), c, 1, MapType(c.ty).value);
    assert GapBefore(START, 0) == 0;
    assert em.lines == [GoField(c.spelling, MapType(c.ty).value)] && em.seen == {c.spelling};
    assert EmitChildren([c]) == Ok(em);
  }

  /** A struct of one field of that size keeps the field's name. */
  lemma {:induction false} OneFieldStruct(t: CType, c: Child)
    requires t.Record? && t.decl.StructDecl? && t.defined && t.children == [c] && c.Field? && t.size == c.ty.size > 0
    requires c.spelling != "" && !c.bitfield && c.offsetBits == 0 && MapType(c.ty).Some?
    requires IsIdentifier(c.spelling) && !Identifiers.IsGoKeyword(c.spelling)
    requires c.spelling[0] != '_' && c.spelling[|c.spelling| - 1] != '_'
    ensures MapRecord(t) == Ok(Struct([GoField(c.spelling, MapType(c.ty).value)]))
  {
    OneField(c);
    var lines := [GoField(c.spelling, MapType(c.ty).value)];
    assert lines + PaddingLines(0) == lines;
  }

  lemma {:induction false} CountIsPlain()
    ensures IsIdentifier("count") && !Identifiers.IsGoKeyword("count") && "count"[0] != '_' && "count"[4] != '_'
  {
  }

  lemma {:induction false} IntIsInt32(ty: CType)
    requires ty.Scalar? && ty.kind.Int?
    ensures MapType(ty) == Some(Basic(Int32))
  {
  }

  /** `struct { int count; }` becomes `struct { count int32 }`. */
  lemma {:induction false} CountField(t: CType, c: Child)
    requires t.Record? && t.decl.StructDecl? && t.defined && t.children == [c] && t.size == 4
    requires c.Field? && c.spelling == "count" && c.offsetBits == 0 && !c.bitfield && c.ty == Scalar(Int, 4, 4)
    ensures MapRecord(t) == Ok(Struct([GoField("count", Basic(Int32))]))
  {
    CountIsPlain();
    IntIsInt32(c.ty);
    OneFieldStruct(t, c);
  }
}
