/** The layout check on record metadata (src/purego_gen/abi_layout.py). */
module AbiLayout {
  import opened Alignment
  import opened CTypes
  import opened RecordDecls
  import opened Options
  import TypeMapping

  datatype Diagnostic =
    | UnsupportedRecord(source: Option<TypeMapping.Code>)
    | UnsupportedField(field: string, source: Option<TypeMapping.Code>)
    | MissingRecordLayout
    | MissingFieldLayout(field: string)
    | FieldOffsetNotByteAligned(field: string, bits: int)
    | FieldOffsetMismatch(field: string, expected: int, got: int)
    | FieldExceedsUnion(field: string, expected: int, got: int)
    | RecordAlignMismatch(expected: int, got: int)
    | RecordSizeMismatch(expected: int, got: int)

  // ---- structs ----

  /** `_validate_field_layout` */
  function ValidateField(f: FieldDecl, current: int): (seq<Diagnostic>, int) {
    if !f.supported then ([UnsupportedField(f.name, f.unsupportedCode)], current)
    else if f.offsetBits.None? || f.sizeBytes.None? || f.alignBytes.None? then ([MissingFieldLayout(f.name)], current)
    else if f.alignBytes.value <= 0 then ([MissingFieldLayout(f.name)], current)
    else if f.offsetBits.value % 8 != 0 then ([FieldOffsetNotByteAligned(f.name, f.offsetBits.value)], current)
    else
      var expected := AlignUp(current, f.alignBytes.value);
      var actual := f.offsetBits.value / 8;
      (if actual != expected then [FieldOffsetMismatch(f.name, expected, actual)] else [],
       expected + f.sizeBytes.value)
  }

  /** `_is_field_usable_for_record_layout` */
  predicate Usable(f: FieldDecl) {
    && f.supported && f.offsetBits.Some? && f.sizeBytes.Some? && f.alignBytes.Some?
    && f.alignBytes.value > 0 && f.offsetBits.value % 8 == 0
  }

  datatype Pass = Pass(diagnostics: seq<Diagnostic>, current: int, maxAlign: int, canFinalize: bool)

  function FieldsPass(fields: seq<FieldDecl>): (p: Pass)
    ensures p.maxAlign >= 1
  {
    if fields == [] then Pass([], 0, 1, true)
    else
      var n := |fields| - 1;
      var p, f := FieldsPass(fields[..n]), fields[n];
      var (ds, next) := ValidateField(f, p.current);
      if Usable(f) then Pass(p.diagnostics + ds, next, Max(p.maxAlign, f.alignBytes.value), p.canFinalize)
      else Pass(p.diagnostics + ds, p.current, p.maxAlign, false)
  }

  function ValidateStruct(r: RecordDecl): seq<Diagnostic>
    requires r.sizeBytes.Some? && r.alignBytes.Some?
  {
    var p := FieldsPass(r.fields);
    if !p.canFinalize then p.diagnostics
    else
      var size := AlignUp(p.current, p.maxAlign);
      p.diagnostics
      + (if r.alignBytes.value != p.maxAlign then [RecordAlignMismatch(p.maxAlign, r.alignBytes.value)] else [])
      + (if r.sizeBytes.value != size then [RecordSizeMismatch(size, r.sizeBytes.value)] else [])
  }

  // ---- unions ----

  function ValidateMember(f: FieldDecl, unionSize: int): seq<Diagnostic> {
    if f.offsetBits.None? || f.sizeBytes.None? then [MissingFieldLayout(f.name)]
    else
      (if f.offsetBits.value != 0 then [FieldOffsetMismatch(f.name, 0, f.offsetBits.value)] else [])
      + (if f.sizeBytes.value > unionSize then [FieldExceedsUnion(f.name, unionSize, f.sizeBytes.value)] else [])
  }

  function ValidateMembers(fields: seq<FieldDecl>, unionSize: int): seq<Diagnostic> {
    if fields == [] then []
    else ValidateMembers(fields[..|fields| - 1], unionSize) + ValidateMember(fields[|fields| - 1], unionSize)
  }

  // ---- records ----

  function Validate(r: RecordDecl): seq<Diagnostic> {
    if !r.supported then [UnsupportedRecord(r.unsupportedCode)]
    else if r.sizeBytes.None? || r.alignBytes.None? then [MissingRecordLayout]
    else if r.kind.UnionDecl? then ValidateMembers(r.fields, r.sizeBytes.value)
    else ValidateStruct(r)
  }

  method ValidateUnionLayout(r: RecordDecl) returns (diagnostics: seq<Diagnostic>)
    requires r.supported && r.kind.UnionDecl?
    ensures diagnostics == Validate(r)
  {
    if r.sizeBytes.None? || r.alignBytes.None? {
      return [MissingRecordLayout];
    }
    diagnostics := [];
    for i := 0 to |r.fields|
      invariant diagnostics == ValidateMembers(r.fields[..i], r.sizeBytes.value)
    {
      assert r.fields[..i + 1][..i] == r.fields[..i];
      ghost var before := diagnostics;
      var field := r.fields[i];
      if field.offsetBits.None? || field.sizeBytes.None? {
        diagnostics := diagnostics + [MissingFieldLayout(field.name)];
        continue;
      }
      if field.offsetBits.value != 0 {
        diagnostics := diagnostics + [FieldOffsetMismatch(field.name, 0, field.offsetBits.value)];
      }
      if field.sizeBytes.value > r.sizeBytes.value {
        diagnostics := diagnostics + [FieldExceedsUnion(field.name, r.sizeBytes.value, field.sizeBytes.value)];
      }
      assert diagnostics == before + ValidateMember(field, r.sizeBytes.value);
    }
    assert r.fields[..|r.fields|] == r.fields;
  }

  method ValidateRecordLayout(r: RecordDecl) returns (diagnostics: seq<Diagnostic>)
    ensures diagnostics == Validate(r)
  {
    if !r.supported {
      return [UnsupportedRecord(r.unsupportedCode)];
    }
    if r.kind.UnionDecl? {
      diagnostics := ValidateUnionLayout(r);
      return;
    }
    if r.sizeBytes.None? || r.alignBytes.None? {
      return [MissingRecordLayout];
    }
    diagnostics := [];
    var currentOffsetBytes, maxFieldAlign, canFinalize := 0, 1, true;
    for i := 0 to |r.fields|
      invariant FieldsPass(r.fields[..i]) == Pass(diagnostics, currentOffsetBytes, maxFieldAlign, canFinalize)
    {
      assert r.fields[..i + 1][..i] == r.fields[..i];
      var field := r.fields[i];
      var (fieldDiagnostics, nextOffsetBytes) := ValidateField(field, currentOffsetBytes);
      diagnostics := diagnostics + fieldDiagnostics;
      if !Usable(field) {
        canFinalize := false;
        continue;
      }
      maxFieldAlign := Max(maxFieldAlign, field.alignBytes.value);
      currentOffsetBytes := nextOffsetBytes;
    }
    assert r.fields[..|r.fields|] == r.fields;
    if !canFinalize {
      return;
    }
    ghost var ofFields := diagnostics;
    if r.alignBytes.value != maxFieldAlign {
      diagnostics := diagnostics + [RecordAlignMismatch(maxFieldAlign, r.alignBytes.value)];
    }
    var expectedSize := AlignUp(currentOffsetBytes, maxFieldAlign);
    if r.sizeBytes.value != expectedSize {
      diagnostics := diagnostics + [RecordSizeMismatch(expectedSize, r.sizeBytes.value)];
    }
    assert diagnostics == ValidateStruct(r);
  }

  // ---- what the check decides ----

  function OffsetOf(f: FieldDecl): int {
    if f.offsetBits.Some? then f.offsetBits.value / 8 else 0
  }

  function SizeOf(f: FieldDecl): int {
    if f.sizeBytes.Some? then f.sizeBytes.value else 0
  }

  function AlignOf(f: FieldDecl): (a: int)
    ensures a >= 1
  {
    if f.alignBytes.Some? && f.alignBytes.value > 0 then f.alignBytes.value else 1
  }

  /** The least multiple of `a` that is not below `v`. */
  ghost predicate LeastMultiple(v: int, a: int, m: int) {
    a > 0 && v <= m && Divides(a, m) && forall k :: v <= k && Divides(a, k) ==> m <= k
  }

  function ReportedEnd(fields: seq<FieldDecl>): int {
    if fields == [] then 0 else OffsetOf(fields[|fields| - 1]) + SizeOf(fields[|fields| - 1])
  }

  predicate AllUsable(fields: seq<FieldDecl>) {
    forall i {:trigger fields[i]} :: 0 <= i < |fields| ==> Usable(fields[i])
  }

  /** Every field sits at the least suitably aligned offset not below the end of the one before. */
  ghost predicate CanonicalFields(fields: seq<FieldDecl>) {
    fields != [] ==>
      var init, last := fields[..|fields| - 1], fields[|fields| - 1];
      CanonicalFields(init) && Usable(last) && LeastMultiple(ReportedEnd(init), AlignOf(last), OffsetOf(last))
  }

  /** `a` is the alignment of the most aligned field, 1 without fields. */
  ghost predicate GreatestAlign(fields: seq<FieldDecl>, a: int) {
    && a >= 1
    && (forall i :: 0 <= i < |fields| ==> AlignOf(fields[i]) <= a)
    && (a == 1 || exists i :: 0 <= i < |fields| && AlignOf(fields[i]) == a)
  }

  /** The layout C11 section 6.7.2.1 and the System V AMD64 ABI section 3.1.2 prescribe for a
      struct without bitfields: canonical fields, the alignment of the most aligned field, the least
      size that is a multiple of it. */
  ghost predicate CanonicalStruct(r: RecordDecl) {
    && r.sizeBytes.Some? && r.alignBytes.Some?
    && CanonicalFields(r.fields)
    && GreatestAlign(r.fields, r.alignBytes.value)
    && LeastMultiple(ReportedEnd(r.fields), r.alignBytes.value, r.sizeBytes.value)
  }

  lemma {:induction false} AlignUpIsLeastMultiple(v: int, a: int, m: int)
    requires a > 0
    ensures m == AlignUp(v, a) <==> LeastMultiple(v, a, m)
  {
    AlignUpBounds(v, a);
    AlignUpLeast(v, a);
  }

  lemma {:induction false} PassAlignIsGreatest(fields: seq<FieldDecl>)
    requires AllUsable(fields)
    ensures GreatestAlign(fields, FieldsPass(fields).maxAlign) && FieldsPass(fields).canFinalize
  {
    if fields != [] {
      var n := |fields| - 1;
      var init := fields[..n];
      PassAlignIsGreatest(init);
      var a := FieldsPass(init).maxAlign;
      forall i | 0 <= i < n ensures AlignOf(fields[i]) <= a {
        assert init[i] == fields[i];
      }
      if a > 1 {
        var i :| 0 <= i < |init| && AlignOf(init[i]) == a;
        assert AlignOf(fields[i]) == a;
      }
      assert Usable(fields[n]);
    }
  }

  lemma {:induction false} FieldsCheckExact(fields: seq<FieldDecl>)
    ensures FieldsPass(fields).diagnostics == [] <==> CanonicalFields(fields)
    ensures CanonicalFields(fields) ==> AllUsable(fields) && FieldsPass(fields).current == ReportedEnd(fields)
    ensures FieldsPass(fields).canFinalize <==> AllUsable(fields)
  {
    if fields != [] {
      var n := |fields| - 1;
      var init, f := fields[..n], fields[n];
      FieldsCheckExact(init);
      assert AllUsable(fields) <==> AllUsable(init) && Usable(f) by {
        forall i | 0 <= i < n ensures init[i] == fields[i] {}
      }
      if CanonicalFields(init) && Usable(f) {
        AlignUpIsLeastMultiple(ReportedEnd(init), AlignOf(f), OffsetOf(f));
      }
    }
  }

  /** Sound and complete: nothing is reported exactly for canonical structs with full metadata. */
  lemma {:induction false} StructCheckExact(r: RecordDecl)
    requires r.supported && !r.kind.UnionDecl?
    ensures Validate(r) == [] <==> CanonicalStruct(r)
  {
    if r.sizeBytes.Some? && r.alignBytes.Some? {
      FieldsCheckExact(r.fields);
      var p := FieldsPass(r.fields);
      if p.diagnostics == [] {
        PassAlignIsGreatest(r.fields);
        AlignUpIsLeastMultiple(p.current, p.maxAlign, r.sizeBytes.value);
        if GreatestAlign(r.fields, r.alignBytes.value) {
          assert p.maxAlign == r.alignBytes.value;
        }
      }
    }
  }

  ghost predicate UnionFits(fields: seq<FieldDecl>, unionSize: int) {
    forall i {:trigger fields[i]} :: 0 <= i < |fields| ==> MemberFits(fields[i], unionSize)
  }

  ghost predicate MemberFits(f: FieldDecl, unionSize: int) {
    f.offsetBits == Some(0) && f.sizeBytes.Some? && f.sizeBytes.value <= unionSize
  }

  lemma {:induction false} MemberPasses(f: FieldDecl, unionSize: int)
    ensures ValidateMember(f, unionSize) == [] <==> MemberFits(f, unionSize)
  {
  }

  /** A union passes exactly when every member lies at offset 0 and fits. */
  lemma {:induction false} UnionCheckExact(fields: seq<FieldDecl>, unionSize: int)
    ensures ValidateMembers(fields, unionSize) == [] <==> UnionFits(fields, unionSize)
  {
    if fields != [] {
      var n := |fields| - 1;
      UnionCheckExact(fields[..n], unionSize);
      MemberPasses(fields[n], unionSize);
      forall i | 0 <= i < n ensures fields[..n][i] == fields[i] {}
    }
  }

  // ---- no cascade ----

  datatype Shape = Shape(size: int, align: int)

  /** The end of a canonically laid out prefix; reported offsets play no part. */
  function CanonicalEnd(shapes: seq<Shape>): int {
    if shapes == [] then 0
    else
      var last := shapes[|shapes| - 1];
      AlignUp(CanonicalEnd(shapes[..|shapes| - 1]), if last.align >= 1 then last.align else 1) + last.size
  }

  function ShapesOf(fields: seq<FieldDecl>): seq<Shape> {
    seq(|fields|, i requires 0 <= i < |fields| => Shape(SizeOf(fields[i]), AlignOf(fields[i])))
  }

  /** The place that sizes and alignments alone give to field i. */
  function CanonicalOffset(fields: seq<FieldDecl>, i: nat): int
    requires i < |fields|
  {
    AlignUp(CanonicalEnd(ShapesOf(fields)[..i]), AlignOf(fields[i]))
  }

  function OwnDiagnostic(fields: seq<FieldDecl>, i: nat): seq<Diagnostic>
    requires i < |fields|
  {
    var canonical := CanonicalOffset(fields, i);
    if OffsetOf(fields[i]) == canonical then []
    else [FieldOffsetMismatch(fields[i].name, canonical, OffsetOf(fields[i]))]
  }

  function OwnDiagnostics(fields: seq<FieldDecl>, k: nat): seq<Diagnostic>
    requires k <= |fields|
  {
    if k == 0 then [] else OwnDiagnostics(fields, k - 1) + OwnDiagnostic(fields, k - 1)
  }

  lemma {:induction false} PassReportsOwnDiagnostics(fields: seq<FieldDecl>, k: nat)
    requires k <= |fields| && AllUsable(fields)
    ensures FieldsPass(fields[..k]).diagnostics == OwnDiagnostics(fields, k)
    ensures FieldsPass(fields[..k]).current == CanonicalEnd(ShapesOf(fields)[..k])
  {
    if k > 0 {
      PassReportsOwnDiagnostics(fields, k - 1);
      assert Usable(fields[k - 1]);
      assert fields[..k][..k - 1] == fields[..k - 1];
      assert ShapesOf(fields)[..k][..k - 1] == ShapesOf(fields)[..k - 1];
    }
  }

  /** What is reported about the record itself, for its right alignment and size. */
  function RecordDiagnostics(r: RecordDecl, align: int, size: int): seq<Diagnostic>
    requires r.sizeBytes.Some? && r.alignBytes.Some?
  {
    (if r.alignBytes.value != align then [RecordAlignMismatch(align, r.alignBytes.value)] else [])
    + (if r.sizeBytes.value != size then [RecordSizeMismatch(size, r.sizeBytes.value)] else [])
  }

  predicate FullStruct(r: RecordDecl) {
    r.supported && !r.kind.UnionDecl? && r.sizeBytes.Some? && r.alignBytes.Some? && AllUsable(r.fields)
  }

  /** With full metadata exactly the misplaced fields are reported, once each and in order, followed
      by the alignment and the size of the record, each exactly when it is wrong. */
  lemma {:induction false} MisplacedFieldsReportedOnce(r: RecordDecl, align: int, size: int)
    requires FullStruct(r) && GreatestAlign(r.fields, align)
    requires LeastMultiple(CanonicalEnd(ShapesOf(r.fields)), align, size)
    ensures Validate(r) == OwnDiagnostics(r.fields, |r.fields|) + RecordDiagnostics(r, align, size)
  {
    PassReportsOwnDiagnostics(r.fields, |r.fields|);
    assert r.fields[..|r.fields|] == r.fields && ShapesOf(r.fields)[..|r.fields|] == ShapesOf(r.fields);
    var p := FieldsPass(r.fields);
    PassAlignIsGreatest(r.fields);
    OneGreatestAlign(r.fields, p.maxAlign, align);
    AlignUpIsLeastMultiple(p.current, align, size);
  }

  lemma {:induction false} OneGreatestAlign(fields: seq<FieldDecl>, a: int, b: int)
    requires GreatestAlign(fields, a) && GreatestAlign(fields, b)
    ensures a == b
  {
  }

  function WithOffset(fields: seq<FieldDecl>, j: nat, bits: int): seq<FieldDecl>
    requires j < |fields|
  {
    fields[j := fields[j].(offsetBits := Some(bits))]
  }

  lemma {:induction false} Regroup(a: seq<Diagnostic>, b: seq<Diagnostic>, c: seq<Diagnostic>, d: seq<Diagnostic>)
    ensures a + b + c + d == a + b + (c + d)
  {
  }

  /** What the prefixes with and without the move report. */
  lemma {:induction false} OwnDiagnosticsMoved(fields: seq<FieldDecl>, j: nat, bits: int, k: nat)
    returns (after: seq<Diagnostic>)
    requires j < k <= |fields|
    ensures var moved := WithOffset(fields, j, bits);
      && OwnDiagnostics(fields, k) == OwnDiagnostics(fields, j) + OwnDiagnostic(fields, j) + after
      && OwnDiagnostics(moved, k) == OwnDiagnostics(fields, j) + OwnDiagnostic(moved, j) + after
  {
    if k == j + 1 {
      after := [];
      SamePrefix(fields, j, bits, j);
    } else {
      var earlier := OwnDiagnosticsMoved(fields, j, bits, k - 1);
      OwnUnmoved(fields, j, bits, k - 1);
      after := earlier + OwnDiagnostic(fields, k - 1);
      Regroup(OwnDiagnostics(fields, j), OwnDiagnostic(fields, j), earlier, OwnDiagnostic(fields, k - 1));
      Regroup(OwnDiagnostics(fields, j), OwnDiagnostic(WithOffset(fields, j, bits), j), earlier,
              OwnDiagnostic(fields, k - 1));
    }
  }

  lemma {:induction false} OwnUnmoved(fields: seq<FieldDecl>, j: nat, bits: int, i: nat)
    requires j < |fields| && i < |fields| && i != j
    ensures OwnDiagnostic(WithOffset(fields, j, bits), i) == OwnDiagnostic(fields, i)
  {
    assert ShapesOf(WithOffset(fields, j, bits)) == ShapesOf(fields);
  }

  lemma {:induction false} SamePrefix(fields: seq<FieldDecl>, j: nat, bits: int, k: nat)
    requires k <= j < |fields|
    ensures OwnDiagnostics(WithOffset(fields, j, bits), k) == OwnDiagnostics(fields, k)
  {
    if k > 0 {
      SamePrefix(fields, j, bits, k - 1);
      OwnUnmoved(fields, j, bits, k - 1);
    }
  }

  /** The right alignment and size of a struct do not depend on reported offsets. */
  lemma {:induction false} RightLayout(r: RecordDecl, j: nat, bits: int) returns (align: int, size: int)
    requires FullStruct(r) && j < |r.fields|
    ensures GreatestAlign(r.fields, align) && GreatestAlign(WithOffset(r.fields, j, bits), align)
    ensures LeastMultiple(CanonicalEnd(ShapesOf(r.fields)), align, size)
    ensures ShapesOf(WithOffset(r.fields, j, bits)) == ShapesOf(r.fields)
  {
    PassAlignIsGreatest(r.fields);
    align := FieldsPass(r.fields).maxAlign;
    GreatestAlignMoved(r.fields, j, bits, align);
    size := AlignUp(CanonicalEnd(ShapesOf(r.fields)), align);
    AlignUpIsLeastMultiple(CanonicalEnd(ShapesOf(r.fields)), align, size);
    assert ShapesOf(WithOffset(r.fields, j, bits)) == ShapesOf(r.fields);
  }

  lemma {:induction false} SamePlace(fields: seq<FieldDecl>, j: nat, bits: int)
    requires j < |fields|
    ensures OwnDiagnostic(WithOffset(fields, j, bits), j) == [] <==> bits / 8 == CanonicalOffset(fields, j)
  {
    assert ShapesOf(WithOffset(fields, j, bits)) == ShapesOf(fields);
  }

  /** No cascade: moving one field changes nothing in the result of the check but the diagnostic of
      that field, which is gone exactly when the field is at its canonical place. */
  lemma {:induction false} MovingOneFieldIsLocal(r: RecordDecl, j: nat, bits: int)
    returns (before: seq<Diagnostic>, after: seq<Diagnostic>)
    requires FullStruct(r) && j < |r.fields| && bits % 8 == 0
    ensures var moved := r.(fields := WithOffset(r.fields, j, bits));
      && Validate(r) == before + OwnDiagnostic(r.fields, j) + after
      && Validate(moved) == before + OwnDiagnostic(moved.fields, j) + after
      && (OwnDiagnostic(moved.fields, j) == [] <==> bits / 8 == CanonicalOffset(r.fields, j))
  {
    var moved := r.(fields := WithOffset(r.fields, j, bits));
    var align, size := RightLayout(r, j, bits);
    MisplacedFieldsReportedOnce(r, align, size);
    MisplacedFieldsReportedOnce(moved, align, size);
    var others := OwnDiagnosticsMoved(r.fields, j, bits, |r.fields|);
    var record := RecordDiagnostics(r, align, size);
    before, after := OwnDiagnostics(r.fields, j), others + record;
    Regroup(before, OwnDiagnostic(r.fields, j), others, record);
    Regroup(before, OwnDiagnostic(moved.fields, j), others, record);
    SamePlace(r.fields, j, bits);
  }

  lemma {:induction false} GreatestAlignMoved(fields: seq<FieldDecl>, j: nat, bits: int, align: int)
    requires j < |fields| && GreatestAlign(fields, align)
    ensures GreatestAlign(WithOffset(fields, j, bits), align)
  {
    var moved := WithOffset(fields, j, bits);
    forall i | 0 <= i < |fields| ensures AlignOf(moved[i]) == AlignOf(fields[i]) {}
    if align > 1 {
      var i :| 0 <= i < |fields| && AlignOf(fields[i]) == align;
      assert AlignOf(moved[i]) == align;
    }
  }

  // ---- fallback classification ----

  datatype Status = Passed | Failed | SkippedUnsupportedPattern | SkippedIncompleteMetadata

  predicate IsUnsupportedPattern(d: Diagnostic) {
    d.UnsupportedRecord? || d.UnsupportedField?
  }

  predicate IsIncompleteMetadata(d: Diagnostic) {
    d.MissingRecordLayout? || d.MissingFieldLayout? || d.FieldOffsetNotByteAligned?
  }

  predicate IsMismatch(d: Diagnostic) {
    d.FieldOffsetMismatch? || d.FieldExceedsUnion? || d.RecordAlignMismatch? || d.RecordSizeMismatch?
  }

  /** `validate_record_layout_with_fallback` */
  function Classify(r: RecordDecl): Status {
    var ds := Validate(r);
    if ds == [] then Passed
    else if exists i :: 0 <= i < |ds| && IsUnsupportedPattern(ds[i]) then SkippedUnsupportedPattern
    else if exists i :: 0 <= i < |ds| && IsIncompleteMetadata(ds[i]) then SkippedIncompleteMetadata
    else if exists i :: 0 <= i < |ds| && IsMismatch(ds[i]) then Failed
    else SkippedIncompleteMetadata
  }

  /** Some part of the record is of a kind the generator does not support. */
  predicate OutsideSupport(r: RecordDecl) {
    !r.supported
    || (r.sizeBytes.Some? && r.alignBytes.Some? && !r.kind.UnionDecl?
        && exists i :: 0 <= i < |r.fields| && !r.fields[i].supported)
  }

  predicate MemberComplete(r: RecordDecl, f: FieldDecl) {
    if r.kind.UnionDecl? then f.offsetBits.Some? && f.sizeBytes.Some? else !f.supported || Usable(f)
  }

  predicate MetadataComplete(r: RecordDecl) {
    r.sizeBytes.Some? && r.alignBytes.Some? && forall i :: 0 <= i < |r.fields| ==> MemberComplete(r, r.fields[i])
  }

  ghost predicate CorrectLayout(r: RecordDecl) {
    if r.kind.UnionDecl? then
      r.sizeBytes.Some? && r.alignBytes.Some? && UnionFits(r.fields, r.sizeBytes.value)
    else CanonicalStruct(r)
  }

  ghost predicate HasUnsupported(ds: seq<Diagnostic>) {
    exists i :: 0 <= i < |ds| && IsUnsupportedPattern(ds[i])
  }

  ghost predicate HasIncomplete(ds: seq<Diagnostic>) {
    exists i :: 0 <= i < |ds| && IsIncompleteMetadata(ds[i])
  }

  lemma {:induction false} HasConcat(a: seq<Diagnostic>, b: seq<Diagnostic>)
    ensures HasUnsupported(a + b) <==> HasUnsupported(a) || HasUnsupported(b)
    ensures HasIncomplete(a + b) <==> HasIncomplete(a) || HasIncomplete(b)
  {
    forall i | 0 <= i < |a| ensures (a + b)[i] == a[i] {}
    forall i | 0 <= i < |b| ensures (a + b)[|a| + i] == b[i] {}
  }

  lemma {:induction false} StructDiagnosticKinds(fields: seq<FieldDecl>)
    ensures var ds := FieldsPass(fields).diagnostics;
      && (HasUnsupported(ds) <==> exists i :: 0 <= i < |fields| && !fields[i].supported)
      && (HasIncomplete(ds) <==> exists i :: 0 <= i < |fields| && fields[i].supported && !Usable(fields[i]))
  {
    if fields != [] {
      var n := |fields| - 1;
      StructDiagnosticKinds(fields[..n]);
      var f := fields[n];
      var own := ValidateField(f, FieldsPass(fields[..n]).current).0;
      HasConcat(FieldsPass(fields[..n]).diagnostics, own);
      assert own != [] ==> own == [own[0]];
      forall i | 0 <= i < n ensures fields[..n][i] == fields[i] {}
    }
  }

  predicate MemberIncomplete(f: FieldDecl) {
    f.offsetBits.None? || f.sizeBytes.None?
  }

  lemma {:induction false} MemberDiagnosticKinds(f: FieldDecl, unionSize: int)
    ensures var own := ValidateMember(f, unionSize);
      !HasUnsupported(own) && (HasIncomplete(own) <==> MemberIncomplete(f))
  {
    if MemberIncomplete(f) {
      assert IsIncompleteMetadata(ValidateMember(f, unionSize)[0]);
    }
  }

  lemma {:induction false} UnionDiagnosticKinds(fields: seq<FieldDecl>, unionSize: int)
    ensures var ds := ValidateMembers(fields, unionSize);
      && !HasUnsupported(ds)
      && (HasIncomplete(ds) <==> exists i {:trigger fields[i]} :: 0 <= i < |fields| && MemberIncomplete(fields[i]))
  {
    if fields != [] {
      var n := |fields| - 1;
      UnionDiagnosticKinds(fields[..n], unionSize);
      HasConcat(ValidateMembers(fields[..n], unionSize), ValidateMember(fields[n], unionSize));
      MemberDiagnosticKinds(fields[n], unionSize);
      forall i | 0 <= i < n ensures fields[..n][i] == fields[i] {}
    }
  }

  /** The kinds of diagnostics that decide the status. */
  ghost predicate KindsDecide(r: RecordDecl) {
    && (HasUnsupported(Validate(r)) <==> OutsideSupport(r))
    && (!OutsideSupport(r) ==> (HasIncomplete(Validate(r)) <==> !MetadataComplete(r)))
    && (Validate(r) == [] <==> !OutsideSupport(r) && CorrectLayout(r) && MetadataComplete(r))
  }

  lemma {:induction false} UnionKinds(r: RecordDecl)
    requires r.supported && r.kind.UnionDecl? && r.sizeBytes.Some? && r.alignBytes.Some?
    ensures KindsDecide(r)
  {
    UnionDiagnosticKinds(r.fields, r.sizeBytes.value);
    UnionCheckExact(r.fields, r.sizeBytes.value);
  }

  lemma {:induction false} StructKinds(r: RecordDecl)
    requires r.supported && !r.kind.UnionDecl? && r.sizeBytes.Some? && r.alignBytes.Some?
    ensures KindsDecide(r)
  {
    StructDiagnosticKinds(r.fields);
    StructCheckExact(r);
    var ds, p := Validate(r), FieldsPass(r.fields);
    var rest := ds[|p.diagnostics|..];
    assert ds == p.diagnostics + rest;
    HasConcat(p.diagnostics, rest);
  }

  /** The status in terms of the metadata alone; the last branch of the classification is dead. */
  lemma {:induction false} ClassificationExact(r: RecordDecl)
    ensures Classify(r) ==
      if OutsideSupport(r) then SkippedUnsupportedPattern
      else if !MetadataComplete(r) then SkippedIncompleteMetadata
      else if CorrectLayout(r) then Passed
      else Failed
  {
    var ds := Validate(r);
    if r.supported && r.sizeBytes.Some? && r.alignBytes.Some? {
      if r.kind.UnionDecl? {
        UnionKinds(r);
      } else {
        StructKinds(r);
      }
      if ds != [] && !HasUnsupported(ds) && !HasIncomplete(ds) {
        assert IsMismatch(ds[0]);
      }
    } else {
      assert ds == [ds[0]];
    }
  }
}
