/** Gemara records as values: what a reader of a catalog or a policy sees. Fields the repository
    copies without looking at them are collapsed into one opaque `rest` per record. */
module Gemara {
  import opened Sequences

  /** A multi-entry mapping: a source catalog and the entries wanted from it. */
  datatype Mapping = Mapping(referenceId: string, entries: seq<string>)

  datatype Group = Group(id: string, title: string, description: string)

  datatype Entry = Entry(referenceId: string, entryId: string)

  datatype Lifecycle = Active | OtherState(name: string)

  datatype Requirement = Requirement(
    id: string,
    text: string,
    applicability: seq<string>,
    recommendation: string,
    state: Lifecycle,
    replacedBy: Option<Entry>)

  datatype Control = Control(
    id: string,
    title: string,
    requirements: seq<Requirement>,
    guidelines: seq<Mapping>,
    threats: seq<Mapping>,
    replacedBy: Option<Entry>,
    rest: string)

  datatype Statement = Statement(recommendations: seq<string>, rest: string)

  datatype Rationale = Rationale(goals: seq<string>, rest: string)

  datatype Guideline = Guideline(
    id: string,
    recommendations: seq<string>,
    applicability: seq<string>,
    statements: seq<Statement>,
    principles: seq<Mapping>,
    vectors: seq<Mapping>,
    seeAlso: seq<string>,
    base: Option<Entry>,
    replacedBy: Option<Entry>,
    rationale: Option<Rationale>,
    rest: string)

  datatype MappingReference = MappingReference(id: string, url: string, version: string)

  datatype Metadata = Metadata(
    mappingReferences: seq<MappingReference>,
    applicabilityGroups: seq<Group>,
    lexicon: Option<string>,
    rest: string)

  /** A redirect names a catalog and entries of it. */
  datatype Exemption = Exemption(redirect: Option<Mapping>, rest: string)

  function ControlId(c: Control): string { c.id }

  function GuidelineId(g: Guideline): string { g.id }

  /** A control catalog (T is Control) or a guidance catalog (T is Guideline, and only then with
      exemptions). `id` is the metadata id; `bases` are the reference ids of the `extends` entries. */
  datatype Catalog<+T> = Catalog(
    id: string,
    title: string,
    items: seq<T>,
    bases: seq<string>,
    imports: seq<Mapping>,
    groups: seq<Group>,
    metadata: Metadata,
    exemptions: seq<Exemption>,
    rest: string)

  function CatalogId<T>(c: Catalog<T>): string { c.id }

  type Pool<T> = map<string, Catalog<T>>

  // ----- policies -----

  datatype Modification = Remove | Replace | Override | Modify | Add | Unrecognised

  datatype Modifier = Modifier(
    id: string,
    targetId: string,
    modification: Modification,
    text: string,
    applicability: seq<string>,
    recommendation: string)

  datatype CatalogImport = CatalogImport(referenceId: string, exclusions: seq<string>, modifiers: seq<Modifier>)

  datatype GuidanceImport = GuidanceImport(referenceId: string, exclusions: seq<string>)

  function CatalogRef(imp: CatalogImport): string { imp.referenceId }

  function GuidanceRef(imp: GuidanceImport): string { imp.referenceId }

  datatype Parameter = Parameter(name: string, description: string, acceptedValues: seq<string>)

  datatype Plan = Plan(requirementId: string, parameters: seq<Parameter>)

  datatype Policy = Policy(
    id: string,
    mappingReferences: seq<MappingReference>,
    catalogImports: seq<CatalogImport>,
    guidanceImports: seq<GuidanceImport>,
    plans: seq<Plan>)

  function PolicyId(p: Policy): string { p.id }
}
