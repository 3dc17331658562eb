/** Catalogs as the program holds them, with slices and pointers that can be shared, and the deep
    copies that keep what a policy resolves to apart from the shared pool. */
module DeepCopy {
  import opened Gemara
  import opened Sequences

  /** A slice whose elements are fixed once it is built; it still has an identity of its own. */
  class Slice<T> {
    const items: seq<T>

    constructor (items: seq<T>)
      ensures this.items == items
    {
      this.items := items;
    }
  }

  /** A pointer to a value that is fixed once it is built. */
  class Pointer<T> {
    const target: T

    constructor (target: T)
      ensures this.target == target
    {
      this.target := target;
    }
  }

  datatype HMapping = HMapping(referenceId: string, entries: Slice?<string>)

  datatype HRequirement = HRequirement(
    id: string,
    text: string,
    applicability: Slice?<string>,
    recommendation: string,
    state: Lifecycle,
    replacedBy: Pointer?<Entry>)

  datatype HControl = HControl(
    id: string,
    title: string,
    requirements: Slice?<HRequirement>,
    guidelines: Slice?<HMapping>,
    threats: Slice?<HMapping>,
    replacedBy: Pointer?<Entry>,
    rest: string)

  datatype HMetadata = HMetadata(
    mappingReferences: Slice?<MappingReference>,
    applicabilityGroups: Slice?<Group>,
    lexicon: Pointer?<string>,
    rest: string)

  /** The control slice is an array: overlays write its elements. */
  datatype HCatalog = HCatalog(
    id: string,
    title: string,
    controls: array?<HControl>,
    bases: seq<string>,
    imports: Slice?<HMapping>,
    groups: Slice?<Group>,
    metadata: HMetadata,
    rest: string)

  // ----- what a structure shows -----

  /** A nil slice shows no items. */
  function Items<T>(s: Slice?<T>): seq<T> { if s == null then [] else s.items }

  function Controls(a: array?<HControl>): seq<HControl>
    reads a
  {
    if a == null then [] else a[..]
  }

  function Target<T>(p: Pointer?<T>): Option<T> { if p == null then None else Some(p.target) }

  function MappingViews(ms: seq<HMapping>): (s: seq<Mapping>)
    ensures |s| == |ms|
    ensures forall i :: 0 <= i < |ms| ==> s[i] == Mapping(ms[i].referenceId, Items(ms[i].entries))
  {
    seq(|ms|, i requires 0 <= i < |ms| => Mapping(ms[i].referenceId, Items(ms[i].entries)))
  }

  function RequirementView(r: HRequirement): Requirement {
    Requirement(r.id, r.text, Items(r.applicability), r.recommendation, r.state, Target(r.replacedBy))
  }

  function RequirementViews(rs: seq<HRequirement>): (s: seq<Requirement>)
    ensures |s| == |rs|
    ensures forall i :: 0 <= i < |rs| ==> s[i] == RequirementView(rs[i])
  {
    seq(|rs|, i requires 0 <= i < |rs| => RequirementView(rs[i]))
  }

  function ControlView(c: HControl): Control {
    Control(c.id, c.title, RequirementViews(Items(c.requirements)), MappingViews(Items(c.guidelines)),
            MappingViews(Items(c.threats)), Target(c.replacedBy), c.rest)
  }

  function ControlViews(cs: seq<HControl>): (s: seq<Control>)
    ensures |s| == |cs|
    ensures forall i :: 0 <= i < |cs| ==> s[i] == ControlView(cs[i])
  {
    seq(|cs|, i requires 0 <= i < |cs| => ControlView(cs[i]))
  }

  function MetadataView(m: HMetadata): Metadata {
    Metadata(Items(m.mappingReferences), Items(m.applicabilityGroups), Target(m.lexicon), m.rest)
  }

  function CatalogView(c: HCatalog): Catalog<Control>
    reads c.controls
  {
    Catalog(c.id, c.title, ControlViews(Controls(c.controls)), c.bases, MappingViews(Items(c.imports)),
            Items(c.groups), MetadataView(c.metadata), [], c.rest)
  }

  // ----- the objects a structure is made of -----

  ghost function Cell(o: object?): set<object> { if o == null then {} else {o} }

  ghost function MappingsCells(s: Slice?<HMapping>): set<object> {
    Cell(s) + set m, o | m in Items(s) && o in Cell(m.entries) :: o
  }

  ghost function RequirementCells(r: HRequirement): set<object> { Cell(r.applicability) + Cell(r.replacedBy) }

  ghost function AllRequirementCells(rs: seq<HRequirement>): set<object> {
    set r, o | r in rs && o in RequirementCells(r) :: o
  }

  ghost function RequirementsCells(s: Slice?<HRequirement>): set<object> {
    Cell(s) + AllRequirementCells(Items(s))
  }

  ghost function ControlCells(c: HControl): set<object> {
    RequirementsCells(c.requirements) + MappingsCells(c.guidelines) + MappingsCells(c.threats) + Cell(c.replacedBy)
  }

  ghost function ControlsCells(cs: seq<HControl>): set<object> {
    set c, o | c in cs && o in ControlCells(c) :: o
  }

  ghost function MetadataCells(m: HMetadata): set<object> {
    Cell(m.mappingReferences) + Cell(m.applicabilityGroups) + Cell(m.lexicon)
  }

  ghost function CatalogCells(c: HCatalog): set<object>
    reads c.controls
  {
    Cell(c.controls) + ControlsCells(Controls(c.controls)) + MappingsCells(c.imports) + Cell(c.groups)
    + MetadataCells(c.metadata)
  }

  lemma {:induction false} ControlsAppend(xs: seq<HControl>, ys: seq<HControl>)
    ensures ControlViews(xs + ys) == ControlViews(xs) + ControlViews(ys)
    ensures ControlsCells(xs + ys) == ControlsCells(xs) + ControlsCells(ys)
  {
    assert forall c :: c in xs + ys <==> c in xs || c in ys;
  }

  lemma {:induction false} RequirementsAppend(xs: seq<HRequirement>, ys: seq<HRequirement>)
    ensures RequirementViews(xs + ys) == RequirementViews(xs) + RequirementViews(ys)
    ensures AllRequirementCells(xs + ys) == AllRequirementCells(xs) + AllRequirementCells(ys)
  {
    assert forall r :: r in xs + ys <==> r in xs || r in ys;
  }

  // ----- the copies -----

  /** copyStrings, deepCopyGroups: slices of plain values. */
  method CopySlice<T>(src: Slice?<T>) returns (dst: Slice?<T>)
    ensures dst == null <==> src == null
    ensures fresh(Cell(dst))
    ensures Items(dst) == Items(src)
  {
    if src == null { return null; }
    dst := new Slice(src.items);
  }

  /** cloneEntryMapping, and the lexicon of deepCopyMetadata: pointers to plain values. */
  method ClonePointer<T>(src: Pointer?<T>) returns (dst: Pointer?<T>)
    ensures dst == null <==> src == null
    ensures fresh(Cell(dst))
    ensures Target(dst) == Target(src)
  {
    if src == null { return null; }
    dst := new Pointer(src.target);
  }

  method DeepCopyMetadata(src: HMetadata) returns (dst: HMetadata)
    ensures fresh(MetadataCells(dst))
    ensures MetadataView(dst) == MetadataView(src)
  {
    var references := CopySlice(src.mappingReferences);
    var groups := CopySlice(src.applicabilityGroups);
    var lexicon := ClonePointer(src.lexicon);
    dst := src.(mappingReferences := references, applicabilityGroups := groups, lexicon := lexicon);
  }

  method CopyMappings(src: Slice?<HMapping>) returns (dst: Slice?<HMapping>)
    ensures dst == null <==> src == null
    ensures fresh(MappingsCells(dst))
    ensures MappingViews(Items(dst)) == MappingViews(Items(src))
  {
    if src == null { return null; }
    var out: seq<HMapping> := [];
    for i := 0 to |src.items|
      invariant |out| == i
      invariant forall m <- out :: fresh(Cell(m.entries))
      invariant MappingViews(out) == MappingViews(src.items[..i])
    {
      var entries := CopySlice(src.items[i].entries);
      out := out + [src.items[i].(entries := entries)];
    }
    dst := new Slice(out);
  }

  method CopyRequirements(src: Slice?<HRequirement>) returns (dst: Slice?<HRequirement>)
    ensures dst == null <==> src == null
    ensures fresh(RequirementsCells(dst))
    ensures RequirementViews(Items(dst)) == RequirementViews(Items(src))
  {
    if src == null { return null; }
    var out: seq<HRequirement> := [];
    for i := 0 to |src.items|
      invariant |out| == i
      invariant forall r <- out :: fresh(RequirementCells(r))
      invariant RequirementViews(out) == RequirementViews(src.items[..i])
    {
      var applicability := CopySlice(src.items[i].applicability);
      var replacedBy := ClonePointer(src.items[i].replacedBy);
      out := out + [src.items[i].(applicability := applicability, replacedBy := replacedBy)];
    }
    dst := new Slice(out);
  }

  method CopyControl(c: HControl) returns (d: HControl)
    ensures fresh(ControlCells(d))
    ensures ControlView(d) == ControlView(c)
  {
    var requirements := CopyRequirements(c.requirements);
    var guidelines := CopyMappings(c.guidelines);
    var threats := CopyMappings(c.threats);
    var replacedBy := ClonePointer(c.replacedBy);
    d := c.(requirements := requirements, guidelines := guidelines, threats := threats, replacedBy := replacedBy);
  }

  /** The copy shows what the source shows and shares no object with anything that existed before. */
  method DeepCopyControls(src: array?<HControl>) returns (dst: array?<HControl>)
    ensures dst == null <==> src == null
    ensures fresh(Cell(dst)) && fresh(ControlsCells(Controls(dst)))
    ensures ControlViews(Controls(dst)) == ControlViews(Controls(src))
  {
    hide ControlCells, ControlView;
    if src == null { return null; }
    dst := new HControl[src.Length](i requires 0 <= i < src.Length reads src => src[i]);
    for i := 0 to dst.Length
      invariant fresh(dst) && dst.Length == src.Length
      invariant forall k :: i <= k < dst.Length ==> dst[k] == src[k]
      invariant forall k :: 0 <= k < i ==> fresh(ControlCells(dst[k])) && ControlView(dst[k]) == ControlView(src[k])
    {
      var c := CopyControl(dst[i]);
      dst[i] := c;
    }
    assert forall c <- dst[..] :: fresh(ControlCells(c));
  }
}
