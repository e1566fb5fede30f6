/** Record metadata handed to accessors and to the layout check
    (src/purego_gen/clang_type_mapping.py, `extract_record_typedef_decl`; src/purego_gen/model.py). */
module RecordDecls {
  import opened CTypes
  import opened GoLayout
  import opened TypeMapping
  import opened Options
  import LayoutFidelity
  import Decimal

  datatype FieldDecl = FieldDecl(
    name: string,
    offsetBits: Option<int>,
    sizeBytes: Option<int>,
    alignBytes: Option<int>,
    supported: bool,
    unsupportedCode: Option<Code>,
    goName: Option<string>,
    goType: Option<GoType>)

  datatype RecordDecl = RecordDecl(
    name: string,
    kind: DeclKind,
    sizeBytes: Option<int>,
    alignBytes: Option<int>,
    fields: seq<FieldDecl>,
    supported: bool,
    unsupportedCode: Option<Code>,
    incomplete: bool)

  datatype Extraction = Extraction(fields: seq<FieldDecl>, seen: set<string>)

  /** `_extract_record_field_decl` */
  function ExtractField(c: Child, index: nat, seen: set<string>): FieldDecl
    requires c.Field?
  {
    var support := FieldSupport(c.spelling, c.bitfield, MapType(c.ty));
    FieldDecl(
      if c.spelling == "" then "<anonymous field #" + Decimal.Format(index) + ">" else c.spelling,
      Metric(c.offsetBits),
      Metric(c.ty.size),
      Metric(c.ty.align),
      support.Ok?,
      if support.Ok? then None else Some(support.code),
      if support.Ok? then Some(FieldName(c.spelling, index, seen)) else None,
      if support.Ok? then Some(support.value) else None)
  }

  function ExtractChildren(cs: seq<Child>): Extraction {
    if cs == [] then Extraction([], {})
    else
      var n := |cs| - 1;
      var ex := ExtractChildren(cs[..n]);
      if cs[n].NestedDecl? then ex
      else
        var decl := ExtractField(cs[n], |cs|, ex.seen);
        Extraction(ex.fields + [decl], if decl.goName.Some? then ex.seen + {decl.goName.value} else ex.seen)
  }

  function ExtractRecord(name: string, t: CType): RecordDecl
    requires t.Record?
  {
    var mapped := MapRecord(t);
    RecordDecl(
      name,
      t.decl,
      Metric(t.size),
      Metric(t.align),
      ExtractChildren(t.children).fields,
      mapped.Ok?,
      if mapped.Ok? then None else Some(mapped.code),
      t.decl.StructDecl? && !t.defined)
  }

  method ExtractRecordTypedefDecl(name: string, t: CType) returns (r: RecordDecl)
    requires t.Record?
    ensures r == ExtractRecord(name, t)
  {
    var seenFieldNames: set<string>, fields: seq<FieldDecl> := {}, [];
    for i := 0 to |t.children|
      invariant ExtractChildren(t.children[..i]) == Extraction(fields, seenFieldNames)
    {
      assert t.children[..i + 1][..i] == t.children[..i];
      var child := t.children[i];
      if child.NestedDecl? {
        continue;
      }
      var decl := ExtractField(child, i + 1, seenFieldNames);
      if decl.goName.Some? {
        seenFieldNames := seenFieldNames + {decl.goName.value};
      }
      fields := fields + [decl];
    }
    assert t.children[..|t.children|] == t.children;
    var mapped := MapRecordTypeToGoName(t);
    r := RecordDecl(name, t.decl, Metric(t.size), Metric(t.align), fields, mapped.Ok?,
                    if mapped.Ok? then None else Some(mapped.code), t.decl.StructDecl? && !t.defined);
  }

  // ---- the two loops agree ----

  /** The names and types recorded for accessors are those emitted, in order. */
  ghost predicate Agrees(fields: seq<FieldDecl>, placed: seq<Placed>) {
    && |fields| == |placed|
    && forall i :: 0 <= i < |fields| ==>
         fields[i].supported && fields[i].goName == Some(placed[i].name) && fields[i].goType == Some(placed[i].ty)
  }

  ghost predicate DistinctNames(placed: seq<Placed>, seen: set<string>) {
    && (forall i, j :: 0 <= i < j < |placed| ==> placed[i].name != placed[j].name)
    && forall i :: 0 <= i < |placed| ==> placed[i].name in seen && placed[i].name != BLANK
  }

  lemma {:induction false} ChildrenAgree(cs: seq<Child>)
    requires EmitChildren(cs).Ok?
    ensures var em := EmitChildren(cs).value; var placed := NamedLayout(em.lines);
      Agrees(ExtractChildren(cs).fields, placed) && ExtractChildren(cs).seen == em.seen
      && DistinctNames(placed, em.seen)
  {
    if cs != [] {
      var n := |cs| - 1;
      ChildrenAgree(cs[..n]);
      if cs[n].Field? {
        var name := LayoutFidelity.LastEmitted(cs);
        var before, after := ExtractChildren(cs[..n]), ExtractChildren(cs);
        LastAgrees(EmitChildren(cs[..n]).value, EmitChildren(cs).value, cs[n], name, MapType(cs[n].ty).value,
                   before.fields, after.fields[|before.fields|]);
        assert after.fields == before.fields + [after.fields[|before.fields|]];
      }
    }
  }

  lemma {:induction false} LastAgrees(
    em: Emission, em': Emission, c: Child, name: string, g: GoType, fields: seq<FieldDecl>, f: FieldDecl)
    requires c.Field? && name != BLANK && name !in em.seen && em'.seen == em.seen + {name}
    requires em'.lines == em.lines + PaddingLines(GapBefore(em.tracker, c.offsetBits)) + [GoField(name, g)]
    requires em'.tracker == AfterField(AfterGap(em.tracker, c.offsetBits), c.ty.size)
    requires f.supported && f.goName == Some(name) && f.goType == Some(g)
    requires Agrees(fields, NamedLayout(em.lines)) && DistinctNames(NamedLayout(em.lines), em.seen)
    ensures Agrees(fields + [f], NamedLayout(em'.lines)) && DistinctNames(NamedLayout(em'.lines), em'.seen)
  {
    LayoutFidelity.PlacedLine(em, em', c, name, g);
  }

  lemma {:induction false} AccessorsMatchStruct(name: string, t: CType)
    requires t.Record? && t.decl.StructDecl? && MapRecord(t).Ok?
    ensures var g := MapRecord(t).value; var placed := NamedLayout(g.fields);
      && Agrees(ExtractRecord(name, t).fields, placed)
      && (forall i, j :: 0 <= i < j < |placed| ==> placed[i].name != placed[j].name)
      && forall i :: 0 <= i < |placed| ==> placed[i].name != BLANK
  {
    ChildrenAgree(t.children);
    var em := EmitChildren(t.children).value;
    LayoutFidelity.PaddingIsInvisible(em.lines, TailGap(em.tracker, t.size));
  }
}
