/** What the layout check reports, diagnostic by diagnostic, whatever is missing from the metadata
    (src/purego_gen/abi_layout.py). */
module AbiReports {
  import opened Alignment
  import opened CTypes
  import opened RecordDecls
  import opened AbiLayout
  import opened Options

  /** Offset, size and a positive alignment are known. */
  predicate Measured(f: FieldDecl) {
    f.offsetBits.Some? && f.sizeBytes.Some? && f.alignBytes.Some? && f.alignBytes.value >= 1
  }

  /** The field lies at a whole byte, and everything about it is known. */
  predicate Placeable(f: FieldDecl) {
    f.supported && Measured(f) && f.offsetBits.value % 8 == 0
  }

  function Misplaced(f: FieldDecl, right: int): seq<Diagnostic>
    requires Placeable(f)
  {
    if f.offsetBits.value == 8 * right then []
    else [FieldOffsetMismatch(f.name, right, f.offsetBits.value / 8)]
  }

  /** The report on one field when the fields before it end at `end`: the first problem it has, or its
      offset when that is not the least aligned one from `end` on. */
  ghost predicate IsFieldReport(f: FieldDecl, end: int, report: seq<Diagnostic>) {
    if !f.supported then report == [UnsupportedField(f.name, f.unsupportedCode)]
    else if !Measured(f) then report == [MissingFieldLayout(f.name)]
    else if !Placeable(f) then report == [FieldOffsetNotByteAligned(f.name, f.offsetBits.value)]
    else exists right :: LeastMultiple(end, f.alignBytes.value, right) && report == Misplaced(f, right)
  }

  /** How the pass goes on over one more field: an unplaceable one changes nothing but the report. */
  ghost predicate GoesOn(p: Pass, f: FieldDecl, p': Pass) {
    && |p.diagnostics| <= |p'.diagnostics| && p.diagnostics == p'.diagnostics[..|p.diagnostics|]
    && IsFieldReport(f, p.current, p'.diagnostics[|p.diagnostics|..])
    && (p'.canFinalize <==> p.canFinalize && Placeable(f))
    && (if Placeable(f) then
          && LeastMultiple(p.current, f.alignBytes.value, p'.current - f.sizeBytes.value)
          && p'.maxAlign >= p.maxAlign && p'.maxAlign >= f.alignBytes.value
          && (p'.maxAlign == p.maxAlign || p'.maxAlign == f.alignBytes.value)
        else p'.current == p.current && p'.maxAlign == p.maxAlign)
  }

  /** Field by field, from offset 0 and alignment 1. */
  lemma {:induction false} PassExact(fields: seq<FieldDecl>, k: nat)
    requires k < |fields|
    ensures FieldsPass([]) == Pass([], 0, 1, true)
    ensures GoesOn(FieldsPass(fields[..k]), fields[k], FieldsPass(fields[..k + 1]))
  {
    var p, p', f := FieldsPass(fields[..k]), FieldsPass(fields[..k + 1]), fields[k];
    assert fields[..k + 1][..k] == fields[..k];
    assert p'.diagnostics == p.diagnostics + ValidateField(f, p.current).0;
    if Placeable(f) {
      AlignUpIsLeastMultiple(p.current, f.alignBytes.value, AlignUp(p.current, f.alignBytes.value));
    }
  }

  /** The whole report on a record. */
  ghost predicate IsReport(r: RecordDecl, report: seq<Diagnostic>) {
    if !r.supported then report == [UnsupportedRecord(r.unsupportedCode)]
    else if r.sizeBytes.None? || r.alignBytes.None? then report == [MissingRecordLayout]
    else if r.kind.UnionDecl? then IsUnionReport(r.fields, r.sizeBytes.value, report)
    else
      var p := FieldsPass(r.fields);
      if !p.canFinalize then report == p.diagnostics
      else exists size :: LeastMultiple(p.current, p.maxAlign, size)
                       && report == p.diagnostics + RecordDiagnostics(r, p.maxAlign, size)
  }

  /** A union's report goes member by member. */
  ghost predicate IsUnionReport(fields: seq<FieldDecl>, unionSize: int, report: seq<Diagnostic>) {
    if fields == [] then report == []
    else exists k :: 0 <= k <= |report| && IsUnionReport(fields[..|fields| - 1], unionSize, report[..k])
                  && IsMemberReport(fields[|fields| - 1], unionSize, report[k..])
  }

  /** A member that is not at offset 0, and one that is too large, are reported with what was found. */
  ghost predicate IsMemberReport(f: FieldDecl, unionSize: int, report: seq<Diagnostic>) {
    if f.offsetBits.None? || f.sizeBytes.None? then report == [MissingFieldLayout(f.name)]
    else
      && |report| == (if f.offsetBits == Some(0) then 0 else 1) + (if f.sizeBytes.value <= unionSize then 0 else 1)
      && (f.offsetBits != Some(0) ==> report[0] == FieldOffsetMismatch(f.name, 0, f.offsetBits.value))
      && (f.sizeBytes.value > unionSize ==>
            report[|report| - 1] == FieldExceedsUnion(f.name, unionSize, f.sizeBytes.value))
  }

  lemma {:induction false} UnionReportExact(fields: seq<FieldDecl>, unionSize: int)
    ensures IsUnionReport(fields, unionSize, ValidateMembers(fields, unionSize))
  {
    if fields != [] {
      var init, last := fields[..|fields| - 1], fields[|fields| - 1];
      UnionReportExact(init, unionSize);
      var before, report := ValidateMembers(init, unionSize), ValidateMembers(fields, unionSize);
      assert report[..|before|] == before && report[|before|..] == ValidateMember(last, unionSize);
      assert IsMemberReport(last, unionSize, report[|before|..]);
    }
  }

  lemma {:induction false} ReportExact(r: RecordDecl)
    ensures IsReport(r, Validate(r))
  {
    if r.supported && r.sizeBytes.Some? && r.alignBytes.Some? {
      if r.kind.UnionDecl? {
        UnionReportExact(r.fields, r.sizeBytes.value);
      } else {
        var p := FieldsPass(r.fields);
        AlignUpIsLeastMultiple(p.current, p.maxAlign, AlignUp(p.current, p.maxAlign));
        if p.canFinalize {
          var size := AlignUp(p.current, p.maxAlign);
          assert Validate(r) == p.diagnostics + RecordDiagnostics(r, p.maxAlign, size);
        }
      }
    }
  }
}
