/** The executing half of the deploy script: turns a plan into the sequence of
    platform calls it issues, in its fixed order, and decides per app whether
    anything is deployed at all. The platform is a parameter: `fails(c)` says
    whether call `c` is rejected. */
module DeployExecute {
  import opened Wrappers
  import opened Seqs
  import opened Json
  import opened DeployPlan

  /** The platform calls of a deployment, in their fixed order; the request
      each one carries is given by `Request`. */
  datatype ApiCall =
    | AddFormFields
    | UpdateFormFields
    | DeleteFormFields
    | UpdateViews
    | UpdateFormLayout
    | DeployApp

  /** Position of a call in the fixed order of the deployment. */
  function Stage(c: ApiCall): nat
  {
    match c
    case AddFormFields => 1
    case UpdateFormFields => 2
    case DeleteFormFields => 3
    case UpdateViews => 4
    case UpdateFormLayout => 5
    case DeployApp => 6
  }

  /** The calls issued so far and whether the deployment is still running
      (false once a call has thrown). */
  datatype Outcome = Outcome(calls: seq<ApiCall>, completed: bool)

  // ---------------------------------------------------------------- payloads

  /** `properties[code] = value(code)` for each code in turn, into a fresh object. */
  function Assign(codes: seq<string>, value: string -> FieldDef): (props: seq<(string, FieldDef)>)
    ensures forall c | c in codes :: Get(props, c) == Some(value(c))
    ensures forall c :: c !in codes ==> Get(props, c) == None
    decreases |codes|
  {
    if |codes| == 0 then []
    else
      var init := codes[..|codes| - 1];
      var last := codes[|codes| - 1];
      assert codes == init + [last];
      Put(Assign(init, value), last, value(last))
  }

  /** Distinct codes become the object's keys in order. */
  lemma {:induction false} AssignKeys(codes: seq<string>, value: string -> FieldDef)
    requires Distinct(codes)
    ensures Keys(Assign(codes, value)) == codes
    decreases |codes|
  {
    if |codes| > 0 {
      var init := codes[..|codes| - 1];
      var last := codes[|codes| - 1];
      assert codes == init + [last];
      assert last !in init;
      AssignKeys(init, value);
    }
  }

  /** The add request: a copy of each new field's source definition; a code
      missing from the source spreads `undefined`, i.e. an empty object. */
  function AddPayload(codes: seq<string>, fields: seq<(string, FieldDef)>): (props: seq<(string, FieldDef)>)
    ensures forall c | c in codes && c in Keys(fields) :: Get(props, c) == Get(fields, c)
    ensures forall c | c in codes && c !in Keys(fields) :: Get(props, c) == Some([])
    ensures forall c :: c !in codes ==> Get(props, c) == None
    ensures Distinct(codes) ==> Keys(props) == codes
  {
    var props := Assign(codes, c => Get(fields, c).GetOr([]));
    if Distinct(codes) then
      AssignKeys(codes, c => Get(fields, c).GetOr([]));
      props
    else props
  }

  /** A field definition without its `code` and `type` members, as the
      object rest pattern `{ code, type, ...rest }` leaves it. */
  function StripCodeAndType(def: FieldDef): (rest: FieldDef)
    ensures forall k :: Get(rest, k) == if k == "code" || k == "type" then None else Get(def, k)
    ensures IsSubsequence(Keys(rest), Keys(def))
    ensures WellFormed(def) ==> WellFormed(rest)
  {
    Without(def, {"code", "type"})
  }

  /** The update request. Destructuring the definition of a code the source
      does not have throws, so then there is no request at all. */
  function UpdatePayload(codes: seq<string>, fields: seq<(string, FieldDef)>): (r: Option<seq<(string, FieldDef)>>)
    ensures r.Some? <==> forall c | c in codes :: c in Keys(fields)
    ensures r.Some? ==> forall c | c in codes ::
      Get(fields, c).Some? && Get(r.value, c) == Some(StripCodeAndType(Get(fields, c).value))
    ensures r.Some? ==> forall c :: c !in codes ==> Get(r.value, c) == None
    ensures r.Some? && Distinct(codes) ==> Keys(r.value) == codes
  {
    if forall c | c in codes :: c in Keys(fields) then
      var props := Assign(codes, c => StripCodeAndType(Get(fields, c).GetOr([])));
      if Distinct(codes) then
        AssignKeys(codes, c => StripCodeAndType(Get(fields, c).GetOr([])));
        Some(props)
      else Some(props)
    else None
  }

  /** `views[key] = value`, where an `undefined` value leaves the member out of
      the request body. */
  function PutView(m: seq<(string, Json)>, key: string, value: Option<Json>): (r: seq<(string, Json)>)
    ensures Get(r, key) == value
    ensures forall k :: k != key ==> Get(r, k) == Get(m, k)
  {
    match value
    case Some(v) => Put(m, key, v)
    case None => Without(m, {key})
  }

  /** Copies `source[key]` into `m` for each key in turn. */
  function Overwrite(m: seq<(string, Json)>, keys: seq<string>, source: seq<(string, Json)>): (r: seq<(string, Json)>)
    ensures forall k | k in keys :: Get(r, k) == Get(source, k)
    ensures forall k :: k !in keys ==> Get(r, k) == Get(m, k)
    decreases |keys|
  {
    if |keys| == 0 then m
    else
      var last := keys[|keys| - 1];
      var prev := Overwrite(m, keys[..|keys| - 1], source);
      assert forall k | k in keys :: k in keys[..|keys| - 1] || k == last;
      PutView(prev, last, Get(source, last))
  }

  /** The view request: the target's views minus those to delete, then every
      view to add or update copied from the source. */
  function MergeViews(plan: Plan, source: Snapshot, target: Snapshot): (views: seq<(string, Json)>)
    ensures forall k | k in plan.viewsToAdd || k in plan.viewsToUpdate :: Get(views, k) == Get(source.views, k)
    ensures forall k :: k !in plan.viewsToAdd && k !in plan.viewsToUpdate ==>
      Get(views, k) == if k in plan.viewsToDelete then None else Get(target.views, k)
  {
    var kept := Without(target.views, set k | k in plan.viewsToDelete);
    Overwrite(kept, plan.viewsToAdd + plan.viewsToUpdate, source.views)
  }

  /** For a plan made from the two snapshots, the merged views are exactly the
      source's views: every key has the source's definition or is absent. */
  lemma MergedViewsAreSourceViews(source: Snapshot, target: Snapshot)
    ensures var plan := CreateDeployPlan(source, target);
      forall k :: Get(MergeViews(plan, source, target), k) == Get(source.views, k)
  {
    var plan := CreateDeployPlan(source, target);
    var merged := MergeViews(plan, source, target);
    forall k ensures Get(merged, k) == Get(source.views, k) {
      if k !in plan.viewsToAdd && k !in plan.viewsToUpdate && k !in plan.viewsToDelete {
        assert Get(merged, k) == Get(target.views, k);
        assert k in Keys(source.views) <==> k in Keys(target.views);
      }
    }
  }

  /** Planning again against the target with the merged views finds no view
      to add, update or delete. */
  lemma ViewsSettleAfterDeploy(source: Snapshot, target: Snapshot)
    ensures var plan := CreateDeployPlan(source, target);
      var after := target.(views := MergeViews(plan, source, target));
      var again := CreateDeployPlan(source, after);
      again.viewsToAdd == [] && again.viewsToUpdate == [] && again.viewsToDelete == []
  {
    var plan := CreateDeployPlan(source, target);
    var after := target.(views := MergeViews(plan, source, target));
    var again := CreateDeployPlan(source, after);
    MergedViewsAreSourceViews(source, target);
    forall k ensures k in Keys(after.views) <==> k in Keys(source.views) {
      assert Get(after.views, k) == Get(source.views, k);
    }
    NoMembersMeansEmpty(again.viewsToAdd);
    NoMembersMeansEmpty(again.viewsToUpdate);
    NoMembersMeansEmpty(again.viewsToDelete);
  }

  // ---------------------------------------------------------------- execution

  predicate AnyViewChange(plan: Plan)
  {
    |plan.viewsToAdd| > 0 || |plan.viewsToUpdate| > 0 || |plan.viewsToDelete| > 0
  }

  predicate LayoutToWrite(plan: Plan, source: Snapshot)
  {
    plan.layoutChanged && |source.layout| > 0
  }

  /** Every code to update has a source definition, so building the update
      request does not throw. */
  predicate UpdateDefsPresent(plan: Plan, source: Snapshot)
  {
    forall c | c in plan.fieldsToUpdate :: c in Keys(source.fields)
  }

  /** Whether the plan has something for call `c` to do (`deployApp` always). */
  predicate Planned(plan: Plan, source: Snapshot, c: ApiCall)
  {
    match c
    case AddFormFields => |plan.fieldsToAdd| > 0
    case UpdateFormFields => |plan.fieldsToUpdate| > 0
    case DeleteFormFields => |plan.fieldsToDelete| > 0
    case UpdateViews => AnyViewChange(plan)
    case UpdateFormLayout => LayoutToWrite(plan, source)
    case DeployApp => true
  }

  /** The request body a call of the deployment sends. */
  datatype Body =
    | Fields(properties: seq<(string, FieldDef)>)
    | Codes(codes: seq<string>)
    | Views(views: seq<(string, Json)>)
    | Layout(layout: seq<Json>)
    | App

  /** The request of call `c`, None only for an update whose request cannot be
      built. */
  function Request(c: ApiCall, plan: Plan, source: Snapshot, target: Snapshot): (r: Option<Body>)
    ensures r.None? <==> c == UpdateFormFields && !UpdateDefsPresent(plan, source)
  {
    match c
    case AddFormFields => Some(Fields(AddPayload(plan.fieldsToAdd, source.fields)))
    case UpdateFormFields =>
      (match UpdatePayload(plan.fieldsToUpdate, source.fields)
       case None => None
       case Some(props) => Some(Fields(props)))
    case DeleteFormFields => Some(Codes(plan.fieldsToDelete))
    case UpdateViews => Some(Views(MergeViews(plan, source, target)))
    case UpdateFormLayout => Some(Layout(source.layout))
    case DeployApp => Some(App)
  }

  /** Building the request of `c` throws before the call is made. */
  predicate Broken(plan: Plan, source: Snapshot, c: ApiCall)
  {
    c == UpdateFormFields && !UpdateDefsPresent(plan, source)
  }

  /** A rejected call throws out of the deployment, except the layout call,
      whose failure is caught and reported. */
  predicate Fatal(c: ApiCall)
  {
    c != UpdateFormLayout
  }

  /** Every call the deployment can make, in its order. */
  const AllCalls: seq<ApiCall> :=
    [AddFormFields, UpdateFormFields, DeleteFormFields, UpdateViews, UpdateFormLayout, DeployApp]

  predicate StageOrdered(s: seq<ApiCall>)
  {
    forall i, j | 0 <= i < j < |s| :: Stage(s[i]) < Stage(s[j])
  }

  lemma AllCallsOrdered()
    ensures StageOrdered(AllCalls)
  {
  }

  lemma InAllCalls(c: ApiCall)
    ensures c in AllCalls
  {
  }

  /** Filtering keeps the stage order. */
  lemma {:induction false} FilterStageOrdered(s: seq<ApiCall>, p: ApiCall -> bool)
    requires StageOrdered(s)
    ensures StageOrdered(Filter(s, p))
    decreases |s|
  {
    if |s| > 0 {
      var rest := Filter(s[1..], p);
      FilterStageOrdered(s[1..], p);
      if p(s[0]) {
        assert forall y :: y in rest ==> Stage(s[0]) < Stage(y) by {
          forall y | y in rest ensures Stage(s[0]) < Stage(y) {
            assert y in s[1..];
            var k :| 0 <= k < |s[1..]| && s[1..][k] == y;
            assert s[k + 1] == y;
          }
        }
        ConsOrdered(s[0], rest);
      }
    }
  }

  /** A call placed before a stage-ordered list of later-stage calls keeps
      the list ordered. */
  lemma ConsOrdered(x: ApiCall, rest: seq<ApiCall>)
    requires StageOrdered(rest) && forall y :: y in rest ==> Stage(x) < Stage(y)
    ensures StageOrdered([x] + rest)
  {
    var f := [x] + rest;
    forall i, j | 0 <= i < j < |f| ensures Stage(f[i]) < Stage(f[j]) {
      assert f[j] == rest[j - 1];
      if i > 0 {
        assert f[i] == rest[i - 1];
      } else {
        assert rest[j - 1] in rest;
      }
    }
  }

  /** The calls `deploySchema` would make if none of them threw. */
  function Steps(plan: Plan, source: Snapshot): (r: seq<ApiCall>)
    ensures forall c :: c in r <==> Planned(plan, source, c)
  {
    forall c ensures c in AllCalls {
      InAllCalls(c);
    }
    Filter(AllCalls, c => Planned(plan, source, c))
  }

  /** The steps are in stage order and end with `DeployApp`. */
  lemma StepsOrdered(plan: Plan, source: Snapshot)
    ensures StageOrdered(Steps(plan, source))
    ensures |Steps(plan, source)| > 0 && Steps(plan, source)[|Steps(plan, source)| - 1] == DeployApp
  {
    AllCallsOrdered();
    FilterStageOrdered(AllCalls, c => Planned(plan, source, c));
    DeployAppIsLast(Steps(plan, source));
  }

  /** In a stage-ordered list holding `DeployApp`, it is the last call. */
  lemma DeployAppIsLast(r: seq<ApiCall>)
    requires StageOrdered(r) && DeployApp in r
    ensures |r| > 0 && r[|r| - 1] == DeployApp
  {
    var i :| 0 <= i < |r| && r[i] == DeployApp;
    assert Stage(r[|r| - 1]) >= Stage(r[i]);
    LastStage(r[|r| - 1]);
  }

  /** `DeployApp` is the only call of the last stage. */
  lemma LastStage(c: ApiCall)
    requires Stage(c) >= 6
    ensures c == DeployApp
  {
  }

  predicate IsPrefix<T(==)>(a: seq<T>, b: seq<T>)
  {
    |a| <= |b| && a == b[..|a|]
  }

  /** Every call goes through: nothing throws while building a request and
      every fatal call is accepted. */
  predicate AllGoThrough(calls: seq<ApiCall>, fails: ApiCall -> bool, broken: ApiCall -> bool)
  {
    forall c | c in calls :: !broken(c) && (Fatal(c) ==> !fails(c))
  }

  /** Makes the calls in order until one throws. */
  function Run(calls: seq<ApiCall>, fails: ApiCall -> bool, broken: ApiCall -> bool): (r: Outcome)
    ensures IsPrefix(r.calls, calls)
    ensures r.completed <==> AllGoThrough(calls, fails, broken)
    ensures r.completed ==> r.calls == calls
    ensures forall i | 0 <= i < |r.calls| - 1 :: !fails(r.calls[i]) || !Fatal(r.calls[i])
    ensures !r.completed && (forall c | c in calls :: !broken(c)) ==>
      |r.calls| > 0 && fails(r.calls[|r.calls| - 1]) && Fatal(r.calls[|r.calls| - 1])
    decreases |calls|
  {
    if |calls| == 0 then Outcome([], true)
    else
      var c := calls[0];
      assert forall x | x in calls :: x == c || x in calls[1..];
      if broken(c) then Outcome([], false)
      else if Fatal(c) && fails(c) then Outcome([c], false)
      else
        var rest := Run(calls[1..], fails, broken);
        RunStep(calls, fails, broken, rest);
        Outcome([c] + rest.calls, rest.completed)
  }

  /** A call that goes through, followed by the run of the remaining calls,
      is a run of all the calls. */
  lemma RunStep(calls: seq<ApiCall>, fails: ApiCall -> bool, broken: ApiCall -> bool, rest: Outcome)
    requires |calls| > 0 && !broken(calls[0]) && !(Fatal(calls[0]) && fails(calls[0]))
    requires IsPrefix(rest.calls, calls[1..])
    requires rest.completed <==> AllGoThrough(calls[1..], fails, broken)
    requires rest.completed ==> rest.calls == calls[1..]
    requires forall i | 0 <= i < |rest.calls| - 1 :: !fails(rest.calls[i]) || !Fatal(rest.calls[i])
    requires !rest.completed && (forall c | c in calls[1..] :: !broken(c)) ==>
      |rest.calls| > 0 && fails(rest.calls[|rest.calls| - 1]) && Fatal(rest.calls[|rest.calls| - 1])
    ensures var r := Outcome([calls[0]] + rest.calls, rest.completed);
      && IsPrefix(r.calls, calls)
      && (r.completed <==> AllGoThrough(calls, fails, broken))
      && (r.completed ==> r.calls == calls)
      && (forall i | 0 <= i < |r.calls| - 1 :: !fails(r.calls[i]) || !Fatal(r.calls[i]))
      && (!r.completed && (forall c | c in calls :: !broken(c)) ==>
        |r.calls| > 0 && fails(r.calls[|r.calls| - 1]) && Fatal(r.calls[|r.calls| - 1]))
  {
    var r := Outcome([calls[0]] + rest.calls, rest.completed);
    assert calls == [calls[0]] + calls[1..];
    assert forall i | 1 <= i < |r.calls| :: r.calls[i] == rest.calls[i - 1];
  }

  /** `deploySchema`: add, update, delete, views, layout, deploy, each step
      only when the plan has something for it; the first call that throws
      ends the deployment, except the layout call, whose failure is only
      reported. The request of each call is `Request(c, plan, source, target)`. */
  function DeploySchema(plan: Plan, source: Snapshot, fails: ApiCall -> bool): (r: Outcome)
    ensures StageOrdered(r.calls)
    ensures forall c | c in r.calls :: Planned(plan, source, c)
    ensures forall i | 0 <= i < |r.calls| - 1 :: !fails(r.calls[i]) || r.calls[i] == UpdateFormLayout
    ensures r.completed ==> |r.calls| > 0 && r.calls[|r.calls| - 1] == DeployApp
    ensures IsPrefix(r.calls, Steps(plan, source))
    ensures r.completed <==> forall c | c in Steps(plan, source) :: !Broken(plan, source, c) && (Fatal(c) ==> !fails(c))
    ensures !r.completed && (forall c | c in Steps(plan, source) :: !Broken(plan, source, c)) ==>
      |r.calls| > 0 && fails(r.calls[|r.calls| - 1]) && Fatal(r.calls[|r.calls| - 1])
  {
    var steps := Steps(plan, source);
    StepsOrdered(plan, source);
    var r := Run(steps, fails, c => Broken(plan, source, c));
    PrefixOfOrdered(r.calls, steps);
    r
  }

  /** A prefix keeps the order and holds only elements of the whole. */
  lemma PrefixOfOrdered(a: seq<ApiCall>, b: seq<ApiCall>)
    requires IsPrefix(a, b) && StageOrdered(b)
    ensures StageOrdered(a)
    ensures forall c | c in a :: c in b
  {
    assert forall i | 0 <= i < |a| :: a[i] == b[i];
  }

  /** A deployment that completes has made every call its plan calls for. */
  lemma CompletedDeploymentIssuesEveryStep(plan: Plan, source: Snapshot, fails: ApiCall -> bool)
    requires DeploySchema(plan, source, fails).completed
    ensures forall c :: Planned(plan, source, c) ==> c in DeploySchema(plan, source, fails).calls
  {
    assert DeploySchema(plan, source, fails).calls == Steps(plan, source);
  }

  /** A platform that rejects only the layout call still gets the app deployed,
      provided every code to update has a source definition. */
  lemma LayoutFailureDoesNotStopDeploy(plan: Plan, source: Snapshot, fails: ApiCall -> bool)
    requires forall c :: fails(c) ==> c == UpdateFormLayout
    requires UpdateDefsPresent(plan, source)
    ensures DeploySchema(plan, source, fails).completed
  {
  }

  /** A plan from the planner never hits the missing-definition error, so a
      deployment stops only at a fatal call the platform rejected. */
  lemma PlannedDeploymentStopsOnlyOnRejection(source: Snapshot, target: Snapshot, fails: ApiCall -> bool)
    ensures var r := DeploySchema(CreateDeployPlan(source, target), source, fails);
      !r.completed ==> |r.calls| > 0 && fails(r.calls[|r.calls| - 1]) && r.calls[|r.calls| - 1] != UpdateFormLayout
  {
    var plan := CreateDeployPlan(source, target);
    assert UpdateDefsPresent(plan, source);
  }

  // ---------------------------------------------------------------- one app

  datatype AppRun =
    | NotSelected
    | NoSourceSchema
    | NoTargetSchema
    | NoTargetAppId
    | NothingToDeploy
    | DryRun(plan: Plan)
    | BackupFailed(plan: Plan)
    | Deployed(plan: Plan, outcome: Outcome)

  /** Both schemas are stored and the target app ID is set: the app gets as
      far as planning. */
  predicate Plannable(source: Option<Snapshot>, target: Option<Snapshot>, targetAppId: Option<string>)
  {
    source.Some? && target.Some? && targetAppId.Some? && targetAppId.value != ""
  }

  /** The body of the per-app loop: skip an app outside the selection, or
      one with a missing schema or app id; plan, and deploy only with
      changes, outside a dry run, after the optional backup. A backup that
      throws abandons the app's deployment. */
  function RunApp(selected: bool, source: Option<Snapshot>, target: Option<Snapshot>, targetAppId: Option<string>,
                  dryRun: bool, backup: bool, backupSucceeds: bool, fails: ApiCall -> bool): (r: AppRun)
    ensures r.NotSelected? <==> !selected
    ensures r.NoSourceSchema? <==> selected && source.None?
    ensures r.NoTargetSchema? <==> selected && source.Some? && target.None?
    ensures r.NoTargetAppId? <==> selected && source.Some? && target.Some? && (targetAppId.None? || targetAppId.value == "")
    ensures r.NothingToDeploy? <==>
      selected && Plannable(source, target, targetAppId) && !HasChanges(CreateDeployPlan(source.value, target.value))
    ensures r.DryRun? <==>
      selected && Plannable(source, target, targetAppId) && HasChanges(CreateDeployPlan(source.value, target.value))
      && dryRun
    ensures r.BackupFailed? <==>
      selected && Plannable(source, target, targetAppId) && HasChanges(CreateDeployPlan(source.value, target.value))
      && !dryRun && backup && !backupSucceeds
    ensures r.Deployed? <==>
      selected && Plannable(source, target, targetAppId) && HasChanges(CreateDeployPlan(source.value, target.value))
      && !dryRun && (backup ==> backupSucceeds)
    ensures (r.DryRun? || r.Deployed? || r.BackupFailed?) ==>
      source.Some? && target.Some? && r.plan == CreateDeployPlan(source.value, target.value)
    ensures r.Deployed? ==> r.outcome == DeploySchema(r.plan, source.value, fails)
  {
    if !selected then NotSelected
    else if source.None? then NoSourceSchema
    else if target.None? then NoTargetSchema
    else if targetAppId.None? || targetAppId.value == "" then NoTargetAppId
    else
      var plan := CreateDeployPlan(source.value, target.value);
      if !HasChanges(plan) then NothingToDeploy
      else if dryRun then DryRun(plan)
      else if backup && !backupSucceeds then BackupFailed(plan)
      else Deployed(plan, DeploySchema(plan, source.value, fails))
  }

  /** Deploying a snapshot onto an identical one never happens. */
  lemma IdenticalSchemasAreNotDeployed(selected: bool, s: Snapshot, appId: Option<string>, dryRun: bool, backup: bool,
                                       backupSucceeds: bool, fails: ApiCall -> bool)
    ensures !RunApp(selected, Some(s), Some(s), appId, dryRun, backup, backupSucceeds, fails).Deployed?
  {
    SamePlanIsEmpty(s);
  }
}
