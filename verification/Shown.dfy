/** What views and cells tell: every field of what they show, and every object reachable through it. */
module Shown {
  import opened DeepCopy
  import opened GuidanceCopy
  import opened Resolver

  // ----- views lose nothing -----

  lemma {:induction false} SameMappings(a: seq<HMapping>, b: seq<HMapping>)
    ensures MappingViews(a) == MappingViews(b) <==>
              |a| == |b| && forall i :: 0 <= i < |a| ==>
                a[i].referenceId == b[i].referenceId && Items(a[i].entries) == Items(b[i].entries)
  {
    if MappingViews(a) == MappingViews(b) {
      assert forall i :: 0 <= i < |a| ==> MappingViews(a)[i] == MappingViews(b)[i];
    }
  }

  lemma {:induction false} SameRequirement(a: HRequirement, b: HRequirement)
    ensures RequirementView(a) == RequirementView(b) <==>
              && a.id == b.id && a.text == b.text && a.recommendation == b.recommendation && a.state == b.state
              && Items(a.applicability) == Items(b.applicability)
              && (a.replacedBy == null <==> b.replacedBy == null)
              && (a.replacedBy != null && b.replacedBy != null ==> a.replacedBy.target == b.replacedBy.target)
  {
  }

  lemma {:induction false} SameRequirements(a: seq<HRequirement>, b: seq<HRequirement>)
    ensures RequirementViews(a) == RequirementViews(b) <==>
              |a| == |b| && forall i :: 0 <= i < |a| ==> RequirementView(a[i]) == RequirementView(b[i])
  {
    if RequirementViews(a) == RequirementViews(b) {
      assert forall i :: 0 <= i < |a| ==> RequirementViews(a)[i] == RequirementViews(b)[i];
    }
  }

  /** Controls show the same exactly when all their fields do. */
  lemma {:induction false} SameControl(a: HControl, b: HControl)
    ensures ControlView(a) == ControlView(b) <==>
              && a.id == b.id && a.title == b.title && a.rest == b.rest
              && RequirementViews(Items(a.requirements)) == RequirementViews(Items(b.requirements))
              && MappingViews(Items(a.guidelines)) == MappingViews(Items(b.guidelines))
              && MappingViews(Items(a.threats)) == MappingViews(Items(b.threats))
              && (a.replacedBy == null <==> b.replacedBy == null)
              && (a.replacedBy != null && b.replacedBy != null ==> a.replacedBy.target == b.replacedBy.target)
  {
  }

  lemma {:induction false} SameMetadata(a: HMetadata, b: HMetadata)
    ensures MetadataView(a) == MetadataView(b) <==>
              && a.rest == b.rest && Items(a.mappingReferences) == Items(b.mappingReferences)
              && Items(a.applicabilityGroups) == Items(b.applicabilityGroups)
              && (a.lexicon == null <==> b.lexicon == null)
              && (a.lexicon != null && b.lexicon != null ==> a.lexicon.target == b.lexicon.target)
  {
  }

  /** Control catalogs show the same exactly when all their fields do. */
  lemma {:induction false} SameCatalog(a: HCatalog, b: HCatalog)
    ensures CatalogView(a) == CatalogView(b) <==>
              && a.id == b.id && a.title == b.title && a.bases == b.bases && a.rest == b.rest
              && ControlViews(Controls(a.controls)) == ControlViews(Controls(b.controls))
              && MappingViews(Items(a.imports)) == MappingViews(Items(b.imports))
              && Items(a.groups) == Items(b.groups) && MetadataView(a.metadata) == MetadataView(b.metadata)
  {
  }

  lemma {:induction false} SameControls(a: seq<HControl>, b: seq<HControl>)
    ensures ControlViews(a) == ControlViews(b) <==>
              |a| == |b| && forall i :: 0 <= i < |a| ==> ControlView(a[i]) == ControlView(b[i])
  {
    hide ControlView;
    if ControlViews(a) == ControlViews(b) {
      assert forall i :: 0 <= i < |a| ==> ControlViews(a)[i] == ControlViews(b)[i];
    }
  }

  lemma {:induction false} SameStatements(a: seq<HStatement>, b: seq<HStatement>)
    ensures StatementViews(a) == StatementViews(b) <==>
              |a| == |b| && forall i :: 0 <= i < |a| ==>
                Items(a[i].recommendations) == Items(b[i].recommendations) && a[i].rest == b[i].rest
  {
    if StatementViews(a) == StatementViews(b) {
      assert forall i :: 0 <= i < |a| ==> StatementViews(a)[i] == StatementViews(b)[i];
    }
  }

  /** Guidelines show the same exactly when all their fields do. */
  lemma {:induction false} SameGuideline(a: HGuideline, b: HGuideline)
    ensures GuidelineView(a) == GuidelineView(b) <==>
              && a.id == b.id && a.rest == b.rest
              && Items(a.recommendations) == Items(b.recommendations)
              && Items(a.applicability) == Items(b.applicability)
              && StatementViews(Items(a.statements)) == StatementViews(Items(b.statements))
              && MappingViews(Items(a.principles)) == MappingViews(Items(b.principles))
              && MappingViews(Items(a.vectors)) == MappingViews(Items(b.vectors))
              && Items(a.seeAlso) == Items(b.seeAlso)
              && (a.base == null <==> b.base == null)
              && (a.base != null && b.base != null ==> a.base.target == b.base.target)
              && (a.replacedBy == null <==> b.replacedBy == null)
              && (a.replacedBy != null && b.replacedBy != null ==> a.replacedBy.target == b.replacedBy.target)
              && (a.rationale == null <==> b.rationale == null)
              && (a.rationale != null && b.rationale != null ==>
                    && Items(a.rationale.target.goals) == Items(b.rationale.target.goals)
                    && a.rationale.target.rest == b.rationale.target.rest)
  {
    hide StatementViews, MappingViews;
  }

  lemma {:induction false} SameExemptions(a: seq<HExemption>, b: seq<HExemption>)
    ensures ExemptionViews(a) == ExemptionViews(b) <==>
              |a| == |b| && forall i :: 0 <= i < |a| ==>
                && a[i].rest == b[i].rest
                && (a[i].redirect == null <==> b[i].redirect == null)
                && (a[i].redirect != null && b[i].redirect != null ==>
                      && a[i].redirect.target.referenceId == b[i].redirect.target.referenceId
                      && Items(a[i].redirect.target.entries) == Items(b[i].redirect.target.entries))
  {
    if ExemptionViews(a) == ExemptionViews(b) {
      assert forall i :: 0 <= i < |a| ==> ExemptionViews(a)[i] == ExemptionViews(b)[i];
    }
  }

  /** Guidance catalogs show the same exactly when all their fields do. */
  lemma {:induction false} SameGuidance(a: HGuidance, b: HGuidance)
    ensures GuidanceView(a) == GuidanceView(b) <==>
              && a.id == b.id && a.title == b.title && a.bases == b.bases && a.rest == b.rest
              && GuidelineViews(Items(a.guidelines)) == GuidelineViews(Items(b.guidelines))
              && MappingViews(Items(a.imports)) == MappingViews(Items(b.imports))
              && Items(a.groups) == Items(b.groups) && MetadataView(a.metadata) == MetadataView(b.metadata)
              && ExemptionViews(Items(a.exemptions)) == ExemptionViews(Items(b.exemptions))
  {
  }

  // ----- cells miss nothing -----

  ghost predicate In(o: object?, cells: set<object>) { o == null || o in cells }

  ghost predicate MappingsIn(s: Slice?<HMapping>, cells: set<object>) {
    In(s, cells) && forall m <- Items(s) :: In(m.entries, cells)
  }

  lemma {:induction false} MappingsAreIn(s: Slice?<HMapping>)
    ensures MappingsIn(s, MappingsCells(s))
  {
    forall m | m in Items(s)
      ensures In(m.entries, MappingsCells(s))
    {
      assert m.entries != null ==> m.entries in Cell(m.entries);
    }
  }

  /** Every object reachable from a control through its fields is one of its cells. */
  lemma {:induction false} ControlIsIn(c: HControl)
    ensures var cells := ControlCells(c);
            && In(c.requirements, cells) && In(c.replacedBy, cells)
            && MappingsIn(c.guidelines, cells) && MappingsIn(c.threats, cells)
            && forall r <- Items(c.requirements) :: In(r.applicability, cells) && In(r.replacedBy, cells)
  {
    MappingsAreIn(c.guidelines);
    MappingsAreIn(c.threats);
    forall r | r in Items(c.requirements)
      ensures RequirementCells(r) <= ControlCells(c)
    {
    }
  }

  /** Every object reachable from a guideline through its fields is one of its cells. */
  lemma {:induction false} GuidelineIsIn(g: HGuideline)
    ensures var cells := GuidelineCells(g);
            && In(g.recommendations, cells) && In(g.applicability, cells) && In(g.seeAlso, cells)
            && In(g.base, cells) && In(g.replacedBy, cells) && In(g.rationale, cells) && In(g.statements, cells)
            && MappingsIn(g.principles, cells) && MappingsIn(g.vectors, cells)
            && (forall s <- Items(g.statements) :: In(s.recommendations, cells))
            && (g.rationale != null ==> In(g.rationale.target.goals, cells))
  {
    MappingsAreIn(g.principles);
    MappingsAreIn(g.vectors);
    forall s | s in Items(g.statements)
      ensures In(s.recommendations, StatementsCells(g.statements))
    {
      assert s.recommendations != null ==> s.recommendations in Cell(s.recommendations);
    }
  }

  lemma {:induction false} MetadataIsIn(m: HMetadata)
    ensures var cells := MetadataCells(m);
            In(m.mappingReferences, cells) && In(m.applicabilityGroups, cells) && In(m.lexicon, cells)
  {
  }

  lemma {:induction false} MappingsInMore(s: Slice?<HMapping>, cells: set<object>, more: set<object>)
    requires MappingsIn(s, cells) && cells <= more
    ensures MappingsIn(s, more)
  {
  }

  lemma {:induction false} CatalogIsIn(c: HCatalog)
    ensures var cells := CatalogCells(c);
            && In(c.controls, cells) && In(c.groups, cells) && MappingsIn(c.imports, cells)
            && MetadataCells(c.metadata) <= cells
            && forall x <- Controls(c.controls) :: ControlCells(x) <= cells
  {
    hide ControlCells, MetadataCells, MappingsCells;
    MappingsAreIn(c.imports);
    MappingsInMore(c.imports, MappingsCells(c.imports), CatalogCells(c));
    forall x | x in Controls(c.controls)
      ensures ControlCells(x) <= ControlsCells(Controls(c.controls))
    {
    }
  }

  lemma {:induction false} GuidanceCatalogIsIn(g: HGuidance)
    ensures var cells := GuidanceCells(g);
            && In(g.guidelines, cells) && In(g.groups, cells) && In(g.exemptions, cells) && MappingsIn(g.imports, cells)
            && MetadataCells(g.metadata) <= cells
            && (forall x <- Items(g.guidelines) :: GuidelineCells(x) <= cells)
            && forall e <- Items(g.exemptions) ::
                 In(e.redirect, cells) && (e.redirect != null ==> In(e.redirect.target.entries, cells))
  {
    hide GuidelineCells, MetadataCells, MappingsCells;
    MappingsAreIn(g.imports);
    MappingsInMore(g.imports, MappingsCells(g.imports), GuidanceCells(g));
    forall x | x in Items(g.guidelines)
      ensures GuidelineCells(x) <= GuidelinesCells(Items(g.guidelines))
    {
    }
    forall e | e in Items(g.exemptions)
      ensures RedirectCells(e.redirect) <= ExemptionsCells(g.exemptions)
    {
    }
  }

  /** The cells of a resolved policy: its index and all cells of its catalogs and its guidance. */
  lemma {:induction false} ResolvedIsIn(r: HResolved)
    ensures r.index in ResolvedCells(r)
    ensures forall c <- r.catalogs :: CatalogCells(c) <= ResolvedCells(r)
    ensures forall g <- r.guidance :: GuidanceCells(g) <= ResolvedCells(r)
  {
    hide CatalogCells, GuidanceCells;
  }
}
