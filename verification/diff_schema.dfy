/** The schema comparison of the diff script: added and removed fields and
    views, and fields whose type differs, between two snapshots. */
module SchemaDiff {
  import opened Wrappers
  import opened Seqs
  import opened Json
  import opened DeployPlan

  /** A common field whose type differs: `from` is the second snapshot's type,
      `to` the first's. */
  datatype TypeChange = TypeChange(code: string, from: Option<Json>, to: Option<Json>)

  datatype DiffResult = DiffResult(
    addedFields: seq<string>,
    removedFields: seq<string>,
    changedFields: seq<TypeChange>,
    addedViews: seq<string>,
    removedViews: seq<string>,
    hasChanges: bool)

  /** The codes of a list of type changes, in order. */
  function ChangedCodes(changes: seq<TypeChange>): (r: seq<string>)
    ensures |r| == |changes| && forall i :: 0 <= i < |r| ==> r[i] == changes[i].code
  {
    seq(|changes|, i requires 0 <= i < |changes| => changes[i].code)
  }

  /** The common fields whose type differs by `!==`, in the first snapshot's
      order, with the second snapshot's type as `from`. */
  function ChangedFields(s1: Snapshot, s2: Snapshot): (r: seq<TypeChange>)
    ensures forall f :: f in ChangedCodes(r) <==>
      f in Keys(s1.fields) && f in Keys(s2.fields) && !StrictEq(TypeOf(s1.fields, f), TypeOf(s2.fields, f))
    ensures forall ch | ch in r :: ch.from == TypeOf(s2.fields, ch.code) && ch.to == TypeOf(s1.fields, ch.code)
    ensures IsSubsequence(ChangedCodes(r), Keys(s1.fields))
    ensures ChangedCodes(r) ==
      Filter(Keys(s1.fields), f => f in Keys(s2.fields) && !StrictEq(TypeOf(s1.fields, f), TypeOf(s2.fields, f)))
  {
    var common := CommonKeys(s1.fields, s2.fields);
    var retyped := Filter(common, f => !StrictEq(TypeOf(s1.fields, f), TypeOf(s2.fields, f)));
    var k2 := Keys(s2.fields);
    FilterFilter(Keys(s1.fields), k => k in k2, f => !StrictEq(TypeOf(s1.fields, f), TypeOf(s2.fields, f)),
      f => f in Keys(s2.fields) && !StrictEq(TypeOf(s1.fields, f), TypeOf(s2.fields, f)));
    SubsequenceTransitive(retyped, common, Keys(s1.fields));
    TypeChanges(retyped, s1, s2)
  }

  /** One type change per code, with the second snapshot's type as `from`
      and the first's as `to`. */
  function TypeChanges(codes: seq<string>, s1: Snapshot, s2: Snapshot): (r: seq<TypeChange>)
    ensures ChangedCodes(r) == codes
    ensures forall ch | ch in r :: ch.from == TypeOf(s2.fields, ch.code) && ch.to == TypeOf(s1.fields, ch.code)
  {
    var r := seq(|codes|, i requires 0 <= i < |codes| =>
      TypeChange(codes[i], TypeOf(s2.fields, codes[i]), TypeOf(s1.fields, codes[i])));
    assert ChangedCodes(r) == codes;
    r
  }

  /** `compareSchemas(schema1, schema2)`: no field is excluded, types are
      compared with `!==`, views are compared by key only and the layout not
      at all; changes of view definitions or of the layout never count. */
  function CompareSchemas(s1: Snapshot, s2: Snapshot): (d: DiffResult)
    ensures d.hasChanges <==>
      || (exists f :: f in Keys(s1.fields) && f !in Keys(s2.fields))
      || (exists f :: f in Keys(s2.fields) && f !in Keys(s1.fields))
      || (exists f :: f in Keys(s1.fields) && f in Keys(s2.fields)
                      && !StrictEq(TypeOf(s1.fields, f), TypeOf(s2.fields, f)))
      || (exists v :: v in Keys(s1.views) && v !in Keys(s2.views))
      || (exists v :: v in Keys(s2.views) && v !in Keys(s1.views))
  {
    var added := KeysOnlyIn(s1.fields, s2.fields);
    var removed := KeysOnlyIn(s2.fields, s1.fields);
    var changed := ChangedFields(s1, s2);
    var addedViews := KeysOnlyIn(s1.views, s2.views);
    var removedViews := KeysOnlyIn(s2.views, s1.views);
    NonEmptyIffMember(added);
    NonEmptyIffMember(removed);
    NonEmptyIffMember(ChangedCodes(changed));
    NonEmptyIffMember(addedViews);
    NonEmptyIffMember(removedViews);
    DiffResult(added, removed, changed, addedViews, removedViews,
      |added| > 0 || |removed| > 0 || |changed| > 0 || |addedViews| > 0 || |removedViews| > 0)
  }

  lemma NonEmptyIffMember(s: seq<string>)
    ensures |s| > 0 <==> exists x :: x in s
  {
    if |s| > 0 {
      assert s[0] in s;
    }
  }

  /** The summary line's count: the sum of the five list lengths. */
  function TotalChanges(d: DiffResult): nat
  {
    |d.addedFields| + |d.removedFields| + |d.changedFields| + |d.addedViews| + |d.removedViews|
  }

  /** The summary count is zero exactly when the comparison reports no changes. */
  lemma TotalChangesAgreesWithFlag(s1: Snapshot, s2: Snapshot)
    ensures TotalChanges(CompareSchemas(s1, s2)) == 0 <==> !CompareSchemas(s1, s2).hasChanges
  {
  }

  /** Comparing the deploy direction (`s1` the source, `s2` the target): every
      field the deployment would add is reported as added, every field it would
      delete as removed, a field reported as retyped is in no deployment
      bucket, and the view additions and removals are the same lists. */
  lemma DiffCoversDeployPlan(source: Snapshot, target: Snapshot)
    ensures var d := CompareSchemas(source, target);
      var p := CreateDeployPlan(source, target);
      && (forall f | f in p.fieldsToAdd :: f in d.addedFields)
      && (forall f | f in p.fieldsToDelete :: f in d.removedFields)
      && (forall f | f in ChangedCodes(d.changedFields) ::
            f !in p.fieldsToAdd && f !in p.fieldsToUpdate && f !in p.fieldsToDelete)
      && d.addedViews == p.viewsToAdd && d.removedViews == p.viewsToDelete
  {
  }

  /** A comparison that reports no change leaves the deployment nothing to add
      or delete, neither fields nor views; it may still update definitions,
      views or the layout. */
  lemma NoDiffMeansNoStructuralDeploy(source: Snapshot, target: Snapshot)
    requires !CompareSchemas(source, target).hasChanges
    ensures var p := CreateDeployPlan(source, target);
      p.fieldsToAdd == [] && p.fieldsToDelete == [] && p.viewsToAdd == [] && p.viewsToDelete == []
  {
    var d := CompareSchemas(source, target);
    var p := CreateDeployPlan(source, target);
    DiffCoversDeployPlan(source, target);
    NoMembersMeansEmpty(p.fieldsToAdd);
    NoMembersMeansEmpty(p.fieldsToDelete);
  }

  /** An edit that keeps every field's type (a label, an option, a flag) is
      invisible to the comparison, yet the deployment plans the field for an
      update. */
  lemma DefinitionEditOnlyDeployed(source: Snapshot, target: Snapshot, f: string)
    requires Keys(source.fields) == Keys(target.fields) && Keys(source.views) == Keys(target.views)
    requires forall g | g in Keys(source.fields) :: StrictEq(TypeOf(source.fields, g), TypeOf(target.fields, g))
    requires f in Keys(source.fields) && !Excluded(source.fields, f)
    requires Get(source.fields, f) != Get(target.fields, f)
    ensures !CompareSchemas(source, target).hasChanges
    ensures f in CreateDeployPlan(source, target).fieldsToUpdate
  {
  }
}
