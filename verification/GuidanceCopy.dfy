/** Guidance catalogs as the program holds them, and their deep copies. No overlay writes into a
    guidance slice, so every one of them is fixed once it is built. */
module GuidanceCopy {
  import opened DeepCopy
  import opened Gemara
  import opened Sequences

  datatype HStatement = HStatement(recommendations: Slice?<string>, rest: string)

  datatype HRationale = HRationale(goals: Slice?<string>, rest: string)

  datatype HGuideline = HGuideline(
    id: string,
    recommendations: Slice?<string>,
    applicability: Slice?<string>,
    statements: Slice?<HStatement>,
    principles: Slice?<HMapping>,
    vectors: Slice?<HMapping>,
    seeAlso: Slice?<string>,
    base: Pointer?<Entry>,
    replacedBy: Pointer?<Entry>,
    rationale: Pointer?<HRationale>,
    rest: string)

  datatype HExemption = HExemption(redirect: Pointer?<HMapping>, rest: string)

  datatype HGuidance = HGuidance(
    id: string,
    title: string,
    guidelines: Slice?<HGuideline>,
    bases: seq<string>,
    imports: Slice?<HMapping>,
    groups: Slice?<Group>,
    metadata: HMetadata,
    exemptions: Slice?<HExemption>,
    rest: string)

  type GuidancePool = map<string, HGuidance>

  // ----- what a structure shows -----

  function StatementViews(ss: seq<HStatement>): (s: seq<Statement>)
    ensures |s| == |ss|
    ensures forall i :: 0 <= i < |ss| ==> s[i] == Statement(Items(ss[i].recommendations), ss[i].rest)
  {
    seq(|ss|, i requires 0 <= i < |ss| => Statement(Items(ss[i].recommendations), ss[i].rest))
  }

  function RationaleView(p: Pointer?<HRationale>): Option<Rationale> {
    if p == null then None else Some(Rationale(Items(p.target.goals), p.target.rest))
  }

  function GuidelineView(g: HGuideline): Guideline {
    Guideline(g.id, Items(g.recommendations), Items(g.applicability), StatementViews(Items(g.statements)),
              MappingViews(Items(g.principles)), MappingViews(Items(g.vectors)), Items(g.seeAlso),
              Target(g.base), Target(g.replacedBy), RationaleView(g.rationale), g.rest)
  }

  function GuidelineViews(gs: seq<HGuideline>): (s: seq<Guideline>)
    ensures |s| == |gs|
    ensures forall i :: 0 <= i < |gs| ==> s[i] == GuidelineView(gs[i])
  {
    seq(|gs|, i requires 0 <= i < |gs| => GuidelineView(gs[i]))
  }

  function RedirectView(p: Pointer?<HMapping>): Option<Mapping> {
    if p == null then None else Some(Mapping(p.target.referenceId, Items(p.target.entries)))
  }

  function ExemptionViews(es: seq<HExemption>): (s: seq<Exemption>)
    ensures |s| == |es|
    ensures forall i :: 0 <= i < |es| ==> s[i] == Exemption(RedirectView(es[i].redirect), es[i].rest)
  {
    seq(|es|, i requires 0 <= i < |es| => Exemption(RedirectView(es[i].redirect), es[i].rest))
  }

  function GuidanceView(g: HGuidance): Catalog<Guideline> {
    Catalog(g.id, g.title, GuidelineViews(Items(g.guidelines)), g.bases, MappingViews(Items(g.imports)),
            Items(g.groups), MetadataView(g.metadata), ExemptionViews(Items(g.exemptions)), g.rest)
  }

  function GuidanceViews(gs: seq<HGuidance>): (s: seq<Catalog<Guideline>>)
    ensures |s| == |gs|
    ensures forall i :: 0 <= i < |gs| ==> s[i] == GuidanceView(gs[i])
  {
    seq(|gs|, i requires 0 <= i < |gs| => GuidanceView(gs[i]))
  }

  function GuidancePoolView(pool: GuidancePool): Pool<Guideline> { map id | id in pool :: GuidanceView(pool[id]) }

  // ----- the objects a structure is made of -----

  ghost function StatementsCells(s: Slice?<HStatement>): set<object> {
    Cell(s) + set x, o | x in Items(s) && o in Cell(x.recommendations) :: o
  }

  ghost function RationaleCells(p: Pointer?<HRationale>): set<object> {
    Cell(p) + if p == null then {} else Cell(p.target.goals)
  }

  ghost function GuidelineCells(g: HGuideline): set<object> {
    Cell(g.recommendations) + Cell(g.applicability) + StatementsCells(g.statements) + MappingsCells(g.principles)
    + MappingsCells(g.vectors) + Cell(g.seeAlso) + Cell(g.base) + Cell(g.replacedBy) + RationaleCells(g.rationale)
  }

  ghost function GuidelinesCells(gs: seq<HGuideline>): set<object> {
    set g, o | g in gs && o in GuidelineCells(g) :: o
  }

  ghost function RedirectCells(p: Pointer?<HMapping>): set<object> {
    Cell(p) + if p == null then {} else Cell(p.target.entries)
  }

  ghost function ExemptionsCells(s: Slice?<HExemption>): set<object> {
    Cell(s) + set e, o | e in Items(s) && o in RedirectCells(e.redirect) :: o
  }

  ghost function GuidanceCells(g: HGuidance): set<object> {
    Cell(g.guidelines) + GuidelinesCells(Items(g.guidelines)) + MappingsCells(g.imports) + Cell(g.groups)
    + MetadataCells(g.metadata) + ExemptionsCells(g.exemptions)
  }

  lemma {:induction false} GuidelinesAppend(xs: seq<HGuideline>, ys: seq<HGuideline>)
    ensures GuidelineViews(xs + ys) == GuidelineViews(xs) + GuidelineViews(ys)
    ensures GuidelinesCells(xs + ys) == GuidelinesCells(xs) + GuidelinesCells(ys)
  {
    hide GuidelineView, GuidelineCells;
    assert forall g :: g in xs + ys <==> g in xs || g in ys;
  }

  lemma {:induction false} GuidelinesOfNone()
    ensures GuidelineViews([]) == [] && GuidelinesCells([]) == {}
  {
  }

  // ----- the copies -----

  method CopyStatements(src: Slice?<HStatement>) returns (dst: Slice?<HStatement>)
    ensures dst == null <==> src == null
    ensures fresh(StatementsCells(dst))
    ensures StatementViews(Items(dst)) == StatementViews(Items(src))
  {
    if src == null { return null; }
    var out: seq<HStatement> := [];
    for i := 0 to |src.items|
      invariant |out| == i
      invariant forall s <- out :: fresh(Cell(s.recommendations))
      invariant StatementViews(out) == StatementViews(src.items[..i])
    {
      var recommendations := CopySlice(src.items[i].recommendations);
      out := out + [src.items[i].(recommendations := recommendations)];
    }
    dst := new Slice(out);
  }

  method CloneRationale(src: Pointer?<HRationale>) returns (dst: Pointer?<HRationale>)
    ensures dst == null <==> src == null
    ensures fresh(RationaleCells(dst))
    ensures RationaleView(dst) == RationaleView(src)
  {
    if src == null { return null; }
    var goals := CopySlice(src.target.goals);
    dst := new Pointer(src.target.(goals := goals));
  }

  method CopyGuideline(g: HGuideline) returns (d: HGuideline)
    ensures fresh(GuidelineCells(d))
    ensures GuidelineView(d) == GuidelineView(g)
  {
    hide StatementsCells, RationaleCells, MappingsCells, Cell;
    var recommendations := CopySlice(g.recommendations);
    var applicability := CopySlice(g.applicability);
    var statements := CopyStatements(g.statements);
    var principles := CopyMappings(g.principles);
    var vectors := CopyMappings(g.vectors);
    var seeAlso := CopySlice(g.seeAlso);
    var base := ClonePointer(g.base);
    var replacedBy := ClonePointer(g.replacedBy);
    var rationale := CloneRationale(g.rationale);
    d := HGuideline(g.id, recommendations, applicability, statements, principles, vectors, seeAlso, base, replacedBy,
                    rationale, g.rest);
  }

  /** The copy shows what the source shows and shares no object with anything that existed before. */
  method DeepCopyGuidelines(src: Slice?<HGuideline>) returns (dst: Slice?<HGuideline>)
    ensures dst == null <==> src == null
    ensures fresh(Cell(dst)) && fresh(GuidelinesCells(Items(dst)))
    ensures GuidelineViews(Items(dst)) == GuidelineViews(Items(src))
  {
    hide GuidelineCells, GuidelineView;
    if src == null { return null; }
    var out: seq<HGuideline> := [];
    for i := 0 to |src.items|
      invariant |out| == i
      invariant forall g <- out :: fresh(GuidelineCells(g))
      invariant GuidelineViews(out) == GuidelineViews(src.items[..i])
    {
      var g := CopyGuideline(src.items[i]);
      out := out + [g];
    }
    dst := new Slice(out);
  }

  /** A redirect gets a new pointer and a new entries slice, even where the old one was nil. */
  method CloneRedirect(src: Pointer?<HMapping>) returns (dst: Pointer?<HMapping>)
    ensures dst == null <==> src == null
    ensures fresh(RedirectCells(dst))
    ensures RedirectView(dst) == RedirectView(src)
  {
    if src == null { return null; }
    var entries := new Slice(Items(src.target.entries));
    dst := new Pointer(src.target.(entries := entries));
  }

  method DeepCopyExemptions(src: Slice?<HExemption>) returns (dst: Slice?<HExemption>)
    ensures dst == null <==> src == null
    ensures fresh(ExemptionsCells(dst))
    ensures ExemptionViews(Items(dst)) == ExemptionViews(Items(src))
  {
    hide RedirectCells, RedirectView;
    if src == null { return null; }
    var out: seq<HExemption> := [];
    for i := 0 to |src.items|
      invariant |out| == i
      invariant forall e <- out :: fresh(RedirectCells(e.redirect))
      invariant ExemptionViews(out) == ExemptionViews(src.items[..i])
    {
      var redirect := CloneRedirect(src.items[i].redirect);
      out := out + [src.items[i].(redirect := redirect)];
    }
    dst := new Slice(out);
  }
}
