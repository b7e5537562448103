/** The schema reconciliation planner of the deploy script: compares a source
    snapshot with a target snapshot and lists the fields and views to add,
    update and delete, and whether the form layout differs. */
module DeployPlan {
  import opened Wrappers
  import opened Seqs
  import opened Json

  /** One field's properties (`type`, `code`, `label`, ...), in order. */
  type FieldDef = seq<(string, Json)>

  /** The parts of a stored schema snapshot that the planner reads. */
  datatype Snapshot = Snapshot(
    fields: seq<(string, FieldDef)>,
    views: seq<(string, Json)>,
    layout: seq<Json>)

  /** Snapshots are parsed JSON: no field code or view key occurs twice. */
  predicate WellFormedSnapshot(s: Snapshot)
  {
    WellFormed(s.fields) && WellFormed(s.views)
  }

  /** Platform-managed field codes, in both display languages, plus the record
      id and revision markers. */
  const SystemFields: set<string> := {
    "レコード番号", "RECORD_NUMBER",
    "作成者", "CREATOR",
    "更新者", "MODIFIER",
    "作成日時", "CREATED_TIME",
    "更新日時", "UPDATED_TIME",
    "カテゴリー", "CATEGORY",
    "ステータス", "STATUS",
    "作業者", "STATUS_ASSIGNEE",
    "$id", "$revision"
  }

  /** Field types that can never be created, changed or removed through the API. */
  const ImmutableTypes: set<string> := {
    "RECORD_NUMBER", "CREATOR", "MODIFIER", "CREATED_TIME", "UPDATED_TIME",
    "CATEGORY", "STATUS", "STATUS_ASSIGNEE"
  }

  /** `fields[code]?.type`: None when the field or its `type` is missing. */
  function TypeOf(fields: seq<(string, FieldDef)>, code: string): Option<Json>
  {
    match Get(fields, code)
    case None => None
    case Some(def) => Get(def, "type")
  }

  /** `IMMUTABLE_FIELD_TYPES.has(t)`: only a string can be a member. */
  predicate IsImmutableType(t: Option<Json>)
  {
    t.Some? && t.value.JStr? && t.value.s in ImmutableTypes
  }

  /** JavaScript `===` on two property values: primitives by value, arrays and
      objects (distinct parsed values) never. */
  predicate StrictEq(a: Option<Json>, b: Option<Json>)
  {
    a == b && (a.None? || !(a.value.JArr? || a.value.JObj?))
  }

  /** Whether a field is kept out of the plan, judged on the side it is read from. */
  predicate Excluded(fields: seq<(string, FieldDef)>, code: string)
  {
    code in SystemFields || IsImmutableType(TypeOf(fields, code))
  }

  datatype Plan = Plan(
    fieldsToAdd: seq<string>,
    fieldsToUpdate: seq<string>,
    fieldsToDelete: seq<string>,
    viewsToAdd: seq<string>,
    viewsToUpdate: seq<string>,
    viewsToDelete: seq<string>,
    layoutChanged: bool)

  /** New fields: only in the source, not system fields, of a mutable source
      type, in source order. */
  function FieldsToAdd(source: Snapshot, target: Snapshot): (r: seq<string>)
    ensures forall f | f in r ::
      f in Keys(source.fields) && f !in Keys(target.fields) && !Excluded(source.fields, f)
    ensures forall f | f in Keys(source.fields) && f !in Keys(target.fields) && !Excluded(source.fields, f) ::
      f in r
    ensures IsSubsequence(r, Keys(source.fields))
    ensures WellFormed(source.fields) ==> Distinct(r)
  {
    var onlySource := KeysOnlyIn(source.fields, target.fields);
    var r := KeepMutable(onlySource, source.fields);
    SubsequenceTransitive(r, onlySource, Keys(source.fields));
    r
  }

  /** Removed fields: only in the target, filtered on the target side, in
      target order. */
  function FieldsToDelete(source: Snapshot, target: Snapshot): (r: seq<string>)
    ensures forall f | f in r ::
      f in Keys(target.fields) && f !in Keys(source.fields) && !Excluded(target.fields, f)
    ensures forall f | f in Keys(target.fields) && f !in Keys(source.fields) && !Excluded(target.fields, f) ::
      f in r
    ensures IsSubsequence(r, Keys(target.fields))
    ensures WellFormed(target.fields) ==> Distinct(r)
  {
    var gone := KeysOnlyIn(target.fields, source.fields);
    var r := KeepMutable(gone, target.fields);
    SubsequenceTransitive(r, gone, Keys(target.fields));
    r
  }

  /** Whether a field on both sides is to be updated: same type on both sides
      (by `===`) and different definitions. */
  predicate Modified(source: Snapshot, target: Snapshot, f: string)
  {
    StrictEq(TypeOf(source.fields, f), TypeOf(target.fields, f))
    && Get(source.fields, f) != Get(target.fields, f)
  }

  /** Changed fields: on both sides, not excluded on the source side, same
      type, different definition, in source order. */
  function FieldsToUpdate(source: Snapshot, target: Snapshot): (r: seq<string>)
    ensures forall f | f in r ::
      && f in Keys(source.fields) && f in Keys(target.fields) && !Excluded(source.fields, f)
      && Modified(source, target, f)
    ensures forall f | f in Keys(source.fields) && f in Keys(target.fields) && !Excluded(source.fields, f)
        && Modified(source, target, f) ::
      f in r
    ensures IsSubsequence(r, Keys(source.fields))
    ensures WellFormed(source.fields) ==> Distinct(r)
  {
    var common := CommonKeys(source.fields, target.fields);
    var mutableCommon := KeepMutable(common, source.fields);
    var r := Filter(mutableCommon, f => Modified(source, target, f));
    SubsequenceTransitive(r, mutableCommon, common);
    SubsequenceTransitive(r, common, Keys(source.fields));
    r
  }

  /** New views: keys only in the source, in source order. */
  function ViewsToAdd(source: Snapshot, target: Snapshot): (r: seq<string>)
    ensures forall v :: v in r <==> v in Keys(source.views) && v !in Keys(target.views)
    ensures IsSubsequence(r, Keys(source.views))
    ensures WellFormed(source.views) ==> Distinct(r)
  {
    KeysOnlyIn(source.views, target.views)
  }

  /** Removed views: keys only in the target, in target order. */
  function ViewsToDelete(source: Snapshot, target: Snapshot): (r: seq<string>)
    ensures forall v :: v in r <==> v in Keys(target.views) && v !in Keys(source.views)
    ensures IsSubsequence(r, Keys(target.views))
    ensures WellFormed(target.views) ==> Distinct(r)
  {
    KeysOnlyIn(target.views, source.views)
  }

  /** Changed views: keys on both sides whose definitions differ, in source order. */
  function ViewsToUpdate(source: Snapshot, target: Snapshot): (r: seq<string>)
    ensures forall v :: v in r <==>
      v in Keys(source.views) && v in Keys(target.views) && Get(source.views, v) != Get(target.views, v)
    ensures IsSubsequence(r, Keys(source.views))
    ensures WellFormed(source.views) ==> Distinct(r)
  {
    var common := CommonKeys(source.views, target.views);
    var r := Filter(common, v => Get(source.views, v) != Get(target.views, v));
    SubsequenceTransitive(r, common, Keys(source.views));
    r
  }

  /** `createDeployPlan`. A field is in at most one bucket, a field present on
      both sides whose type changed is in none, and so is a system field. */
  function CreateDeployPlan(source: Snapshot, target: Snapshot): (p: Plan)
    ensures forall f | f in p.fieldsToAdd :: f !in p.fieldsToUpdate && f !in p.fieldsToDelete
    ensures forall f | f in p.fieldsToUpdate :: f !in p.fieldsToDelete
    ensures forall f | f in Keys(source.fields) && f in Keys(target.fields)
        && !StrictEq(TypeOf(source.fields, f), TypeOf(target.fields, f)) ::
      f !in p.fieldsToAdd && f !in p.fieldsToUpdate && f !in p.fieldsToDelete
    ensures forall f | f in SystemFields ::
      f !in p.fieldsToAdd && f !in p.fieldsToUpdate && f !in p.fieldsToDelete
    ensures forall v | v in p.viewsToAdd :: v !in p.viewsToUpdate && v !in p.viewsToDelete
    ensures forall v | v in p.viewsToUpdate :: v !in p.viewsToDelete
    ensures p.layoutChanged <==> source.layout != target.layout
  {
    Plan(FieldsToAdd(source, target), FieldsToUpdate(source, target), FieldsToDelete(source, target),
         ViewsToAdd(source, target), ViewsToUpdate(source, target), ViewsToDelete(source, target),
         source.layout != target.layout)
  }

  /** The two exclusion filters of the planner, applied in order: system field
      codes, then fields whose type (read from `fields`) is immutable. */
  function KeepMutable(codes: seq<string>, fields: seq<(string, FieldDef)>): (r: seq<string>)
    ensures forall f | f in r :: f in codes && !Excluded(fields, f)
    ensures forall f | f in codes && !Excluded(fields, f) :: f in r
    ensures IsSubsequence(r, codes)
    ensures Distinct(codes) ==> Distinct(r)
  {
    var notSystem := Filter(codes, f => f !in SystemFields);
    var r := Filter(notSystem, f => !IsImmutableType(TypeOf(fields, f)));
    SubsequenceTransitive(r, notSystem, codes);
    r
  }

  /** `displayPlan`'s result: whether anything would be deployed. */
  predicate HasChanges(p: Plan)
  {
    || |p.fieldsToAdd| > 0 || |p.fieldsToUpdate| > 0 || |p.fieldsToDelete| > 0
    || |p.viewsToAdd| > 0 || |p.viewsToUpdate| > 0 || |p.viewsToDelete| > 0
    || p.layoutChanged
  }

  /** A sequence with no members is empty. */
  lemma NoMembersMeansEmpty(s: seq<string>)
    requires forall x :: x !in s
    ensures s == []
  {
    if |s| > 0 {
      FirstIsMember(s);
      assert false;
    }
  }

  lemma FirstIsMember(s: seq<string>)
    requires |s| > 0
    ensures s[0] in s
  {
  }

  /** Planning a snapshot against itself gives six empty lists and no layout
      change, so the plan display reports no changes. */
  lemma SamePlanIsEmpty(s: Snapshot)
    ensures CreateDeployPlan(s, s) == Plan([], [], [], [], [], [], false)
    ensures !HasChanges(CreateDeployPlan(s, s))
  {
    SameFieldsUnplanned(s);
    SameViewsUnplanned(s);
  }

  /** No field is added, updated or deleted between a snapshot and itself. */
  lemma SameFieldsUnplanned(s: Snapshot)
    ensures FieldsToAdd(s, s) == [] && FieldsToUpdate(s, s) == [] && FieldsToDelete(s, s) == []
  {
    NoMembersMeansEmpty(FieldsToAdd(s, s));
    NoMembersMeansEmpty(FieldsToUpdate(s, s));
    NoMembersMeansEmpty(FieldsToDelete(s, s));
  }

  /** No view is added, updated or deleted between a snapshot and itself. */
  lemma SameViewsUnplanned(s: Snapshot)
    ensures ViewsToAdd(s, s) == [] && ViewsToUpdate(s, s) == [] && ViewsToDelete(s, s) == []
  {
    NoMembersMeansEmpty(ViewsToAdd(s, s));
    NoMembersMeansEmpty(ViewsToUpdate(s, s));
    NoMembersMeansEmpty(ViewsToDelete(s, s));
  }

  /** When the display reports no changes, the two snapshots have the same view
      keys with the same definitions and the same layout (fields may still
      differ in system fields, immutable types or type changes). */
  lemma NoChangesMeansViewsAndLayoutAgree(source: Snapshot, target: Snapshot)
    requires !HasChanges(CreateDeployPlan(source, target))
    ensures source.layout == target.layout
    ensures forall v :: Get(source.views, v) == Get(target.views, v)
  {
    var p := CreateDeployPlan(source, target);
    assert p.viewsToAdd == ViewsToAdd(source, target) && p.viewsToUpdate == ViewsToUpdate(source, target);
    assert p.viewsToDelete == ViewsToDelete(source, target);
    EmptyViewBucketsAgree(source.views, target.views);
  }

  /** When no view is added, updated or deleted, both sides define every view
      alike. */
  lemma EmptyViewBucketsAgree(source: seq<(string, Json)>, target: seq<(string, Json)>)
    requires KeysOnlyIn(source, target) == [] && KeysOnlyIn(target, source) == []
    requires Filter(CommonKeys(source, target), v => Get(source, v) != Get(target, v)) == []
    ensures forall v :: Get(source, v) == Get(target, v)
  {
    forall v ensures Get(source, v) == Get(target, v) {
      assert v !in KeysOnlyIn(source, target) && v !in KeysOnlyIn(target, source);
      assert v !in Filter(CommonKeys(source, target), v => Get(source, v) != Get(target, v));
    }
  }
}
