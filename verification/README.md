# kintone devkit scripts, modelled in Dafny

The devkit is a set of command-line scripts for developing customisations and
plugins for the kintone low-code platform. Around the network and file-system
calls, the scripts compute things:

- a deployment plan between two stored schema snapshots, and the requests
  that carry it out;
- a schema diff;
- keyset pagination over an app's records, and batched restores;
- the customisation-file manifest, and the desktop file lists rebuilt from it;
- the naming rules for apps, environment variables, plugins and bundles;
- the text edits the wizards make to `.env`, `kintone.config.ts` and
  `plugin.config.ts`;
- the `.env` clean-up of `remove-app`;
- the command-line and file selection rules;
- the two form helpers of the sample apps.

This project models those computations as pure functions over immutable
datatypes and proves what they promise.

Layout: one module per script, plus shared modules.

- `Wrappers`: the optional value.
- `Seqs`: order-preserving filter, subsequences, distinctness.
- `Strings`: the `String.prototype` operations the scripts use.
- `Json`: JSON values and ordered objects.
- `Sorting`: the descending sort.

Platform and file-system calls become parameters. Examples:

- `fails` and `rejected` say which API calls throw;
- `hasFile`, `present` and `taken` answer `existsSync`;
- directory listings are `Option<seq<string>>`;
- the answers typed at prompts are strings;
- `isNumeric` stands for `!isNaN(Number(s))`.

The record server of the backup script is a stub holding records in
ascending `$id` order. It answers a page query with the first 500 records
above the cursor.

Where a script evidently does not do what it sets out to do, the model keeps
two members:

- one for the code as written, with a lemma that exhibits the input showing
  the discrepancy;
- one with the corrected behaviour, which the rest of the model uses.

The creation wizard (`CreateApp.RunWizard`) and the plugin upload
(`UploadPlugin.PlanUpload`) take a flag that selects between the two, so
each flow is modelled both as written and corrected.

These cases are listed under "Findings".

The copy of `fetchAllRecords` in `scripts/deploy-schema.ts:85-119` is the
same loop as the one in `scripts/backup-records.ts:30-77`, without a filter.
It is `BackupRecords.FetchAllRecords` with `query == None`.

Both sample apps define the same `autoNum` and `charLimit`. Module `Common`
models both: `apps/app1/src/common.js:21-35` and
`material-management-demo/src/common.js:11-20`.

## Model

| member | source | states |
|---|---|---|
| DeployPlan.FieldsToAdd | scripts/deploy-schema.ts:191-194 | a code is planned for addition exactly when it is a source field absent from the target, not a system field and not of an immutable type on the source side; source key order, no repeats |
| DeployPlan.FieldsToDelete | scripts/deploy-schema.ts:196-199 | a code is planned for deletion exactly when it is a target field absent from the source, with the system and immutable-type filters judged on the target side; target key order |
| DeployPlan.FieldsToUpdate | scripts/deploy-schema.ts:202-212 | a code is updated exactly when both sides have it, it passes the source-side filters, the types are `===`-equal and the definitions differ; source order |
| DeployPlan.ViewsToAdd | scripts/deploy-schema.ts:215 | exactly the view keys only the source has, in source order |
| DeployPlan.ViewsToDelete | scripts/deploy-schema.ts:216 | exactly the view keys only the target has, in target order |
| DeployPlan.ViewsToUpdate | scripts/deploy-schema.ts:217-219 | exactly the common view keys whose definitions differ |
| DeployPlan.CreateDeployPlan | scripts/deploy-schema.ts:183-233 | no field or view is in two buckets; a field whose type changed, and every system field code, is in no field bucket; the layout flag holds iff the layouts differ |
| DeployPlan.KeepMutable | scripts/deploy-schema.ts:47-63 | the two exclusion filters keep exactly the codes that are neither system codes nor of an immutable type, in order |
| DeployPlan.SamePlanIsEmpty | scripts/deploy-schema.ts:183-233 | planning a snapshot against itself gives six empty lists and no layout change, so the plan display reports nothing |
| DeployPlan.SameFieldsUnplanned | scripts/deploy-schema.ts:191-212 | no field is added, updated or deleted between a snapshot and itself |
| DeployPlan.SameViewsUnplanned | scripts/deploy-schema.ts:215-219 | no view is added, updated or deleted between a snapshot and itself |
| DeployPlan.NoChangesMeansViewsAndLayoutAgree | scripts/deploy-schema.ts:238-310 | when `displayPlan` reports no changes, both sides define every view alike and have the same layout |
| DeployPlan.EmptyViewBucketsAgree | scripts/deploy-schema.ts:215-219 | empty view buckets mean both view objects give the same definition for every key |
| DeployExecute.Assign | scripts/deploy-schema.ts:325-329 | filling a fresh `properties` object code by code gives each listed code its value and no other key |
| DeployExecute.AssignKeys | scripts/deploy-schema.ts:325-329 | with distinct codes, the object's keys are the codes in order |
| DeployExecute.AddPayload | scripts/deploy-schema.ts:325-329 | the add request holds, for each new code, a copy of its full source definition (code included) and nothing else |
| DeployExecute.StripCodeAndType | scripts/deploy-schema.ts:339 | the rest pattern drops exactly `code` and `type`; every other property keeps its value and order |
| DeployExecute.UpdatePayload | scripts/deploy-schema.ts:337-341 | the update request exists iff every code to update has a source definition; it maps each code to that definition without `code` and `type` |
| DeployExecute.PutView | scripts/deploy-schema.ts:363 | `views[key] = value` sets that key and leaves every other key alone |
| DeployExecute.Overwrite | scripts/deploy-schema.ts:368-370 | every listed key gets the source definition; other keys are unchanged |
| DeployExecute.MergeViews | scripts/deploy-schema.ts:358-370 | the view request keeps the target's views except those to delete, then copies every view to add or update from the source |
| DeployExecute.MergedViewsAreSourceViews | scripts/deploy-schema.ts:358-370 | for a plan built by the planner, the merged views are exactly the source's views |
| DeployExecute.ViewsSettleAfterDeploy | scripts/deploy-schema.ts:215-219 | planning again against the merged views finds no view to add, update or delete |
| DeployExecute.Request | scripts/deploy-schema.ts:322-389 | only the update call can lack a request, and only when some code to update has no source definition |
| DeployExecute.Steps | scripts/deploy-schema.ts:322-389 | a call is among the steps exactly when the plan gives it work; the layout call additionally needs a non-empty source layout; `deployApp` always runs |
| DeployExecute.StepsOrdered | scripts/deploy-schema.ts:322-389 | the steps follow the fixed order add, update, delete, views, layout, deploy, and end with `deployApp` |
| DeployExecute.Run | scripts/deploy-schema.ts:322-389 | calls are made in order until one throws; the run completes iff every call goes through, and only the last call made can be a rejected fatal one |
| DeployExecute.DeploySchema | scripts/deploy-schema.ts:315-391 | the calls made are the planned steps in order, up to and including the first call that throws; only the layout call may be rejected before another call is made; the deployment completes iff every planned call goes through, and then ends with `deployApp`; a stopped deployment whose requests all build ends in a rejected fatal call |
| DeployExecute.CompletedDeploymentIssuesEveryStep | scripts/deploy-schema.ts:315-391 | a completed deployment has made every call the plan asks for |
| DeployExecute.LayoutFailureDoesNotStopDeploy | scripts/deploy-schema.ts:377-390 | a rejected layout update is swallowed: the deployment still completes, ending with `deployApp` |
| DeployExecute.PlannedDeploymentStopsOnlyOnRejection | scripts/deploy-schema.ts:315-391 | for a plan built by the planner, a deployment that stops has had its last call rejected, and that call is not the layout call |
| DeployExecute.RunApp | scripts/deploy-schema.ts:462-516 | each outcome exactly when its conditions hold: skipped outside the selection, then without a source schema, a target schema or a target app ID; nothing to deploy without changes; a dry run stops after planning; a requested backup that fails stops the app; otherwise deployed, with the plan of the two schemas |
| DeployExecute.IdenticalSchemasAreNotDeployed | scripts/deploy-schema.ts:492-507 | identical snapshots are never deployed |
| SchemaDiff.ChangedFields | scripts/diff-schema.ts:38-49 | the reported codes are exactly the first snapshot's codes, in its order, that the second snapshot also has with a type differing by `!==`; `from` is the second snapshot's type and `to` the first's |
| SchemaDiff.TypeChanges | scripts/diff-schema.ts:41-48 | one change per code, in order, with `from`/`to` read from the second and first snapshot |
| SchemaDiff.CompareSchemas | scripts/diff-schema.ts:32-68 | `hasChanges` holds iff a field or view key is on one side only, or a common field's type differs; no system filter, no definition or view-content comparison |
| SchemaDiff.TotalChangesAgreesWithFlag | scripts/diff-schema.ts:133-134 | the summary count is zero exactly when `hasChanges` is false |
| SchemaDiff.DiffCoversDeployPlan | scripts/diff-schema.ts:36-55 | every field the deployment adds is reported added and every one it deletes is reported removed; retyped fields are in no deployment bucket; the view additions and removals are the same lists |
| SchemaDiff.NoDiffMeansNoStructuralDeploy | scripts/diff-schema.ts:57-58 | when the diff reports nothing, the deployment adds and deletes no field or view |
| SchemaDiff.DefinitionEditOnlyDeployed | scripts/diff-schema.ts:41-49 | a label-only edit goes unreported by the diff, yet the deployment updates that field |
| BackupRecords.PageQuery | scripts/backup-records.ts:43-46 | the query ends with `order by $id asc limit 500`; with a filter it starts `(<filter>) and $id > `, otherwise `$id > ` |
| BackupRecords.PageQueryInjective | scripts/backup-records.ts:43-46 | two page queries with the same filter are equal only for equal cursors |
| BackupRecords.Page | scripts/backup-records.ts:48-53 | a page never exceeds 500 records |
| BackupRecords.AboveCursor | scripts/backup-records.ts:36-66 | after the first k records are read, the cursor is the last id read (0 at first), and the records above it are exactly the unread ones |
| BackupRecords.NextPage | scripts/backup-records.ts:48-66 | the page after the first k records is the next slice of the store, of size min(500, the remaining count) |
| BackupRecords.FetchAllRecords | scripts/backup-records.ts:30-77 | every stored record is returned exactly once, in order; there are ⌊n/500⌋+1 requests, request i carrying the cursor left by i full pages |
| BackupRecords.BackupApp | scripts/backup-records.ts:95-113 | no records means no backup; otherwise the backup holds the records, their count and the query |
| BackupRecords.BackupFromServer | scripts/backup-records.ts:82-113 | a backup exists iff the server holds a matching record, and it holds all of them |
| BackupRecords.BackedUpApps | scripts/backup-records.ts:187-214 | an app gets a backup exactly when it is selected, has an app ID, fetches without error and has records; configuration order |
| BackupRecords.ValuesComeFromArgs | scripts/backup-records.ts:145-154 | each parsed value is the default or comes from the arguments: `--env` takes a following non-option, `--query` any following argument, a bare argument is split and trimmed |
| BackupRecords.ParseArgs | scripts/backup-records.ts:139-156 | the environment defaults to `KINTONE_ENV`, else `dev`; without `--query` there is no query |
| BackupRecords.LastTargetWins | scripts/backup-records.ts:145-154 | when the scan reads a bare argument at position k and no later argument it reads is bare, the target list is that argument split at `,` and trimmed, wherever k lies and whatever options follow |
| BackupRecords.TargetUnchanged | scripts/backup-records.ts:145-154 | a scan that reads no bare argument keeps the target list it started with |
| BackupRecords.ParsedTargetIsLast | scripts/backup-records.ts:134-157 | on the whole command line, the last bare argument the scan reads decides the target list |
| BackupRecords.ParsedNoTarget | scripts/backup-records.ts:134-157 | a command line without a bare argument the scan reads selects no target list |
| BackupRecords.TargetBeforeOption | scripts/backup-records.ts:145-154 | `app1 --env prod` targets `app1`: an option after the target does not displace it |
| BackupRecords.LastOptionWins | scripts/backup-records.ts:145-154 | the last `--env` or `--query` the scan reads with a value sets that option to the value |
| BackupRecords.ParsedOptionIsLast | scripts/backup-records.ts:134-157 | on the whole command line, the last `--env` or `--query` read with a value decides the option |
| BackupRecords.OptionUnchanged | scripts/backup-records.ts:145-154 | a scan that reads no `--env` (or `--query`) with a value keeps the option's value |
| BackupRecords.AppendedTargetWins | scripts/backup-records.ts:151-152 | a bare argument appended to a command line sets the target list |
| RestoreRecords.CleanRecordForInsert | scripts/restore-records.ts:48-66 | the cleaned record has exactly the keys outside the 18 system names, in order, with their values |
| RestoreRecords.CleanIdempotent | scripts/restore-records.ts:48-66 | cleaning twice is cleaning once |
| RestoreRecords.CleanAll | scripts/restore-records.ts:80 | one cleaned record per record, in order: no system field survives, every other field keeps its value, and the keys keep their order |
| RestoreRecords.ChunksCover | scripts/restore-records.ts:78-79 | the batches concatenate to the input; each is non-empty and at most 100 long; there are ⌈n/100⌉ of them |
| RestoreRecords.ChunkStep | scripts/restore-records.ts:78-79 | the batch the loop sends at offset i is the next slice of the batching |
| RestoreRecords.AddRecords | scripts/restore-records.ts:71-94 | the cleaned batches are sent in order up to the first rejected request; without a rejection all ⌈n/100⌉ are sent and the input length is returned |
| RestoreRecords.ListBackups | scripts/restore-records.ts:99-110 | exactly the `backup-*.json` names of the directory, as a permutation, in descending order; nothing without a directory |
| RestoreRecords.FirstBackupIsNewest | scripts/restore-records.ts:106-109 | the first listed backup is the greatest backup name in the directory |
| RestoreRecords.ForceIffFlagSeen | scripts/restore-records.ts:141-152 | force is set iff `--force` or `-f` is read as an argument and not consumed as an option's value |
| RestoreRecords.OptionValuesFromArgs | scripts/restore-records.ts:141-147 | the environment and the backup file keep their starting values or take the argument after `--env` (when it is not an option) or after `--file` |
| RestoreRecords.LastTargetWins | scripts/restore-records.ts:141-152 | when the scan reads a bare argument at position k and no later argument it reads is bare, the target app is that argument, wherever k lies and whatever options follow |
| RestoreRecords.TargetUnchanged | scripts/restore-records.ts:141-152 | a scan that reads no bare argument keeps the target app it started with |
| RestoreRecords.ParsedTargetIsLast | scripts/restore-records.ts:134-155 | on the whole command line, the last bare argument the scan reads is the target app |
| RestoreRecords.ParsedNoTarget | scripts/restore-records.ts:134-155 | a command line without a bare argument the scan reads has no target app |
| RestoreRecords.TargetBeforeOption | scripts/restore-records.ts:141-152 | `app1 --env prod` targets `app1`: an option after the target does not displace it |
| RestoreRecords.LastOptionWins | scripts/restore-records.ts:141-152 | the last `--env` or `--file` the scan reads with a value sets that option to the value |
| RestoreRecords.ParsedOptionIsLast | scripts/restore-records.ts:134-155 | on the whole command line, the last `--env` or `--file` read with a value decides the option |
| RestoreRecords.OptionUnchanged | scripts/restore-records.ts:141-152 | a scan that reads no `--env` (or `--file`) with a value keeps the option's value |
| RestoreRecords.TargetFromArgs | scripts/restore-records.ts:149-150 | a target app, when set, is an argument that is not an option |
| RestoreRecords.ParseArgs | scripts/restore-records.ts:134-155 | force iff the flag is read; without `--env` the environment is `KINTONE_ENV`, else `dev`; without `--file` no file; the target is a non-option argument |
| RestoreRecords.PlanRestore | scripts/restore-records.ts:160-260 | each outcome exactly when the checks before it pass and its own fails, in the order target, known app, backups, loadable file, base URL, app ID, confirmation; a restore reads `--file` or the newest backup, with force or a `y` answer |
| RestoreRecords.DefaultRestoreUsesNewest | scripts/restore-records.ts:201-202 | without `--file`, the restored backup is the greatest backup name in the directory |
| CustomizeManifest.DefaultName | scripts/sync-existing.ts:103 | a default file name is `file-`, the decimal digits of the index (which parse back to it), then the extension |
| CustomizeManifest.LocalName | scripts/sync-existing.ts:103-135 | the local name is the file's own name when it has one, else the default name with the item's index |
| CustomizeManifest.SyncEntry | scripts/sync-existing.ts:102-126 | a FILE entry is written only for an item with a file key whose download succeeded, with `name == localPath`; a URL entry only for an item with a URL; nothing otherwise |
| CustomizeManifest.Produced | scripts/sync-existing.ts:112-125 | an entry is pushed exactly when there is one |
| CustomizeManifest.SyncList | scripts/sync-existing.ts:99-159 | at most one entry per item; each entry is a saved file or a saved link |
| CustomizeManifest.SyncPrefix | scripts/sync-existing.ts:99-127 | entries keep the relative order of the items |
| CustomizeManifest.EntryPosition | scripts/sync-existing.ts:99-127 | an item's entry follows those of the items before it, so a default name carries the original index |
| CustomizeManifest.SyncAgrees | scripts/sync-existing.ts:107-119 | download outcomes of other items do not matter |
| CustomizeManifest.DownloadFailureDropsOnlyThatEntry | scripts/sync-existing.ts:107-119 | a failed download removes exactly that item's FILE entry; the other entries are written unchanged |
| CustomizeManifest.LoadSavedFiles | scripts/upload.ts:30-48 | without a readable manifest both lists are empty; a missing list reads as empty |
| CustomizeManifest.Reuploaded | scripts/upload.ts:127-172 | one upload per FILE entry with a local path whose file exists, in manifest order, each with the key returned for that path |
| CustomizeManifest.UrlItems | scripts/upload.ts:179-186 | one link per URL entry whose `url` is a string, in manifest order, with that URL |
| CustomizeManifest.FilesThenLinksConcat | scripts/upload.ts:189-204 | files then links: no re-uploaded file follows a link |
| CustomizeManifest.DesktopJs | scripts/upload.ts:190-199 | the JS list is the re-uploaded files, then the links, then the new bundle, which is last |
| CustomizeManifest.DesktopCss | scripts/upload.ts:201-213 | the CSS list is the re-uploaded files, then the links, then the new style sheet exactly when one was uploaded |
| CustomizeManifest.MobileSettings | scripts/upload.ts:226 | the current mobile settings are kept when truthy, else empty JS and CSS lists |
| CustomizeManifest.UploadApp | scripts/upload.ts:63-227 | an app outside the selection, without a bundle or without an app ID is skipped before any upload, each case exactly under its condition; an upload sends the app ID, the desktop JS list (ending with the bundle), the desktop CSS list and the mobile settings |
| CustomizeManifest.EveryEntryCarried | scripts/upload.ts:127-199 | with the local files present, every synced entry is re-uploaded or linked: the two lists together are as long as the manifest list |
| CustomizeManifest.SyncedAppUploaded | scripts/upload.ts:63-227 | a synced app, selected, built and with an app ID, is uploaded with every synced entry: the JS list is the synced list plus the bundle, the CSS list the synced list plus the new style sheet when there is one |
| CustomizeManifest.SyncThenUpload | scripts/sync-existing.ts:112-125 | after a sync whose files are all present, the JS list has one element per synced entry plus the bundle, and the CSS list one per synced entry |
| Utils.IndexOf | scripts/utils.ts:20 | `indexOf` finds the first occurrence; None exactly when absent |
| Utils.TargetArg | scripts/utils.ts:20-23 | the token after the first `--` when it exists and is non-empty, otherwise the first user argument |
| Utils.GetTargetApps | scripts/utils.ts:16-33 | None iff there is no (non-empty) token; otherwise the token's comma-separated parts, each trimmed |
| Utils.JoinedNames | scripts/utils.ts:27 | names free of commas and outer blanks, joined with commas, split back into the names |
| Utils.TargetAppsRoundTrip | scripts/utils.ts:16-33 | `a,b,c` as the only argument selects exactly those apps, in order |
| Utils.GetFilteredEntries | scripts/utils.ts:38-73 | an app gets an entry exactly when it is selected and has `index.ts` or `index.js`; `.ts` is preferred; directory order; no directory, no entries |
| Utils.ToEnvVarName | scripts/utils.ts:79-81 | the variable name has no `-`, ends in `_ID`, is 3 longer, and upper-cases lower-case letters |
| Utils.EnvVarNameRoundTrip | scripts/utils.ts:79-81 | for wizard-valid name characters the app name is recovered from the variable name |
| Utils.EnvVarNameInjective | scripts/utils.ts:79-81 | two such names never share a variable |
| Utils.ToCamelCase | scripts/utils.ts:87-89 | no `-` followed by a lower-case letter survives; the first character is converted as the pattern says; never longer |
| Utils.CamelCaseConcat | scripts/utils.ts:87-89 | conversion distributes over concatenation unless the cut separates a `-` from the lower-case letter after it |
| Utils.CamelCaseHyphenLower | scripts/utils.ts:87-89 | a `-` followed by a lower-case letter becomes that letter upper-cased, and the text around it is converted on its own |
| Utils.CamelCaseOtherHyphen | scripts/utils.ts:87-89 | a `-` not followed by a lower-case letter is kept |
| Utils.OrderEntryCamelCase | scripts/utils.ts:84-89 | `order-entry` becomes `orderEntry` |
| Utils.CamelCaseFixesCamel | scripts/utils.ts:87-89 | a camel-case name is left unchanged |
| Utils.CamelCaseIdempotent | scripts/utils.ts:87-89 | converting twice is converting once |
| CreatePlugin.HyphenateOthers | scripts/create-plugin.ts:33 | replacing non-`[a-z0-9-]` characters keeps the length |
| CreatePlugin.CollapseHyphens | scripts/create-plugin.ts:33 | collapsing hyphen runs leaves no `--`, keeps the first character and loses only hyphens |
| CreatePlugin.ToPluginId | scripts/create-plugin.ts:32-34 | the result has only `[a-z0-9-]`, never `--`, is non-empty for a non-empty name, and keeps every non-hyphen of the sanitised name |
| CreatePlugin.PluginIdFixesIds | scripts/create-plugin.ts:32-34 | an identifier maps to itself |
| CreatePlugin.PluginIdIdempotent | scripts/create-plugin.ts:32-34 | normalising twice is normalising once |
| CreatePlugin.ManifestHead | scripts/create-plugin.ts:40-57 | every manifest starts with the seven fixed keys in order |
| CreatePlugin.GenerateManifest | scripts/create-plugin.ts:39-75 | the fixed members come first; `mobile` is present iff mobile support is on, `config` iff there is a settings screen |
| CreatePlugin.ReadHead | scripts/create-plugin.ts:40-57 | each fixed key reads back its own member |
| CreatePlugin.ManifestRoundTrip | scripts/create-plugin.ts:39-75 | reading the generated manifest gives back the display name and description (both languages alike), the version and both flags |
| CreatePlugin.NewEntry | scripts/create-plugin.ts:366-370 | the inserted entry holds the registration key `'<name>':` |
| CreatePlugin.ConfigTemplate | scripts/create-plugin.ts:326-346 | a new file registers the plugin |
| CreatePlugin.UpdatePluginConfig | scripts/create-plugin.ts:321-376 | an already registered plugin or a text without `};` is left as is; otherwise the entry goes right before the last `};`, the rest unchanged; afterwards the plugin is registered unless the text was left as is |
| CreatePlugin.UpdateIdempotent | scripts/create-plugin.ts:354-357 | registering a plugin twice is registering it once |
| CreatePlugin.InsertionIsUndone | scripts/create-plugin.ts:372 | cutting the inserted entry back out gives the original text |
| CreatePlugin.WizardConfig | scripts/create-plugin.ts:448-467 | a configuration exists iff the trimmed name matches `^[a-z0-9-]+$`; the display name is the answer or else the name, the description the answer, the version the answer or else `1.0.0`; settings screen unless `n`/`N`, mobile only on `y`/`Y` |
| CreatePlugin.WizardManifestReadsAnswers | scripts/create-plugin.ts:448-467 | the manifest written for the wizard's answers reads back as those answers with their defaults |
| CreatePlugin.ValidNameIsId | scripts/create-plugin.ts:32-34 | an accepted name without `--` is its own plugin identifier |
| BuildPlugin.GetTargetPlugins | scripts/build-plugin.ts:25-44 | no directory gives none; no argument gives all; otherwise exactly the directories named in the first argument's trimmed list, in directory order |
| BuildPlugin.AllNamedSelectsAll | scripts/build-plugin.ts:41-43 | naming every plugin selects them all, in order |
| BuildPlugin.SafeName | scripts/build-plugin.ts:57 | `plugin_` + name + `_` + entry, no `-` when the entry has none |
| BuildPlugin.SafeNameIsIdentifier | scripts/build-plugin.ts:57 | for an accepted plugin name every entry gets a valid JavaScript identifier |
| BuildPlugin.SafeNameInjective | scripts/build-plugin.ts:57 | different plugins or entries never share a global name |
| BuildPlugin.EntriesToBuild | scripts/build-plugin.ts:165-177 | exactly the entries whose file exists, in the order desktop, mobile, config |
| BuildPlugin.BuildPlan | scripts/build-plugin.ts:150-177 | nothing without `manifest.json`; else each entry to build with its global name |
| BuildPlugin.BuildPlanNames | scripts/build-plugin.ts:165-177 | the global names of one build are distinct identifiers |
| UploadPlugin.FirstPlain | scripts/upload-plugin.ts:14 | the first argument not starting with `--` |
| UploadPlugin.GetTargetPlugin | scripts/upload-plugin.ts:13-16 | the first argument not starting with `--`; None when there is none or it is empty |
| UploadPlugin.FlagsAreSkipped | scripts/upload-plugin.ts:13-16 | `--` flags before a name are skipped |
| UploadPlugin.Greatest | scripts/upload-plugin.ts:41 | `sort().reverse()[0]`: None only for no candidates, else a candidate no other exceeds |
| UploadPlugin.GreatestUnique | scripts/upload-plugin.ts:41 | the element bounding all others is the one chosen |
| UploadPlugin.StripZip | scripts/upload-plugin.ts:102 | only a final `.zip` is removed |
| UploadPlugin.CutAtUnderscore | scripts/upload-plugin.ts:102 | the cut is a prefix ending before the first `_` with no line break after it |
| UploadPlugin.DisplayName | scripts/upload-plugin.ts:102 | the listed name is a prefix of the file name |
| UploadPlugin.ListedPlugins | scripts/upload-plugin.ts:96-104 | one listing per `.zip` file, in directory order, naming that file and its display name |
| UploadPlugin.PackedZipDisplayName | scripts/upload-plugin.ts:102 | `<name>.zip` and `<name>_<version>.zip` are listed under the plugin name |
| UploadPlugin.ChooseZip | scripts/upload-plugin.ts:32-41 | the chosen file is a `.zip` in the directory that lists under the plugin's own name |
| UploadPlugin.ChooseZipAsWritten | scripts/upload-plugin.ts:32-41 | as written: none exactly when no file starts with the plugin name and ends in `.zip`; otherwise the greatest such name |
| UploadPlugin.OtherPluginChosen | scripts/upload-plugin.ts:32-41 | with `test.zip` and `test2.zip` present, the choice for `test` as written is `test2.zip` |
| UploadPlugin.OwnPackageOnly | scripts/upload-plugin.ts:32 | the plugin's own package is a candidate; another plugin's never is |
| UploadPlugin.ChooseZipAgrees | scripts/upload-plugin.ts:32-41 | when the prefix match finds only the plugin's own packages, both choices agree |
| UploadPlugin.OwnPackageChosen | scripts/upload-plugin.ts:32-41 | with `test.zip` and `test2.zip` present, `test` gets `test.zip` |
| UploadPlugin.PlanUpload | scripts/upload-plugin.ts:21-116 | each outcome exactly when its conditions hold: usage without a plugin, then no base URL, no directory, no package; otherwise it sends the zip picked by the prefix match as written, or by the corrected match |
| UploadPlugin.PackagedPluginUploaded | scripts/upload-plugin.ts:21-41 | a packaged plugin is uploaded from a package listed under its own name |
| CreateApp.ToEnvVarPrefix | scripts/create-app.ts:22-24 | the prefix has the name's length and no `-` |
| CreateApp.EnvVarNameExtendsPrefix | scripts/create-app.ts:22-24 | the shared helper's variable name is this prefix plus `_ID` |
| CreateApp.PrefixInjective | scripts/create-app.ts:22-24 | valid names never share a prefix |
| CreateApp.PromptAppName | scripts/create-app.ts:161-184 | accepted iff the trimmed answer matches `^[a-z][a-z0-9-]*$` and its directory does not exist |
| CreateApp.ValidNameAccepted | scripts/create-app.ts:161-184 | a valid new name without blanks is accepted as typed |
| CreateApp.PromptAppId | scripts/create-app.ts:189-199 | accepted iff the trimmed answer is non-empty and numeric |
| CreateApp.DefaultProdName | scripts/create-app.ts:100 | a final `-dev` becomes `-prod`; other names are unchanged |
| CreateApp.DefaultProdNameValid | scripts/create-app.ts:100-104 | the default production name of a valid name is valid, and differs from it iff it ends in `-dev` |
| CreateApp.ProdName | scripts/create-app.ts:101-102 | the trimmed answer, or the default when blank |
| CreateApp.ChoosePattern | scripts/create-app.ts:49-64 | a pattern is chosen iff the trimmed answer is 1, 2 or 3, and it is that pattern |
| CreateApp.ChoosePatternRoundTrip | scripts/create-app.ts:49-64 | each pattern is selected by its own number |
| CreateApp.SeparateSetupsAsWritten | scripts/create-app.ts:90-132 | the separate-source pattern as written: two setups, the second with a valid production name that may equal the first |
| CreateApp.SeparateSetupsShareName | scripts/create-app.ts:100-115 | a name not ending in `-dev` and a blank production answer give both setups the same name and development variable |
| CreateApp.SharedNameLosesProdId | scripts/create-app.ts:336-345 | the second setup then leaves `.env` unchanged: the production ID is never written |
| CreateApp.SeparateSetups | scripts/create-app.ts:90-132 | the corrected pattern: the two names differ, so the two development variables differ |
| CreateApp.DevEnvVarsDiffer | scripts/create-app.ts:319-322 | distinct valid names have distinct development variables |
| CreateApp.SeparateSetupsAgree | scripts/create-app.ts:90-132 | the two versions agree whenever the names differ |
| CreateApp.CancelledOnlyOnN | scripts/create-app.ts:220 | only `n` and `N` cancel |
| CreateApp.PatternSetups | scripts/create-app.ts:72-156 | each pattern's setups are valid new names with a development ID; single always succeeds, schema sync fails only on the production ID and carries it as answered, separate fails exactly on an invalid, taken (or, corrected, equal) production name or production ID and its second setup is the production name with the production ID as its ID |
| CreateApp.RunWizard | scripts/create-app.ts:33-232 | an invalid answer exits, and exactly when every answer is accepted `n`/`N` cancels and anything else creates the chosen pattern's setups: the first named and numbered as answered, the schema-sync production ID and the separate production setup as answered |
| CreateApp.DevStepAsWritten | scripts/create-app.ts:336-339 | unchanged iff the development name occurs in the file; otherwise exactly `\n# <app>\n<DEV>=<id>\n` is appended |
| CreateApp.ProdStepAsWritten | scripts/create-app.ts:341-345 | exactly `<PROD>=<id>\n` is appended when there is an ID and the production name occurs nowhere; otherwise unchanged |
| CreateApp.UpdateEnvFileAsWritten | scripts/create-app.ts:319-348 | the old content (or the template for a missing file), then the development block when its name was missing, then the production line when there is an ID and its name is still missing; a text already holding both names is unchanged |
| CreateApp.UpdateEnvFileAsWrittenIdempotent | scripts/create-app.ts:336-345 | updating twice is updating once |
| CreateApp.ProdLineGluedToLastLine | scripts/create-app.ts:342-343 | on `A_DEV_ID=1` without a final line break, app `a` with production ID `2`, the production line is glued on (`A_DEV_ID=1A_PROD_ID=2\n`) and no line assigns `A_PROD_ID`; the corrected update gives `A_DEV_ID=1\nA_PROD_ID=2\n` |
| CreateApp.EnvSubstringHidesVariable | scripts/create-app.ts:336 | an existing `X_A_DEV_ID` hides the missing `A_DEV_ID` of app `a`: nothing is appended and no line assigns it |
| CreateApp.EnsureNewline | scripts/create-app.ts:342-343 | the corrected production step first ends the last line, so the appended line starts a line of its own (the code as written does not; see Findings) |
| CreateApp.UpdateEnvFile | scripts/create-app.ts:319-348 | the old content is a prefix, followed by the development block when no line assigned the variable; afterwards a line assigns the development variable and, with a production ID, a line reads exactly `<PROD>=<id>` when none assigned it before; at most the two blocks and one line break are added |
| CreateApp.WithDevLine | scripts/create-app.ts:336-339 | exactly the development block is appended when no line assigns the variable, and nothing otherwise |
| CreateApp.WithProdLine | scripts/create-app.ts:342-345 | with an ID and no line assigning the variable, `<PROD>=<id>\n` is appended on a line of its own, adding at most one line break besides; otherwise nothing changes |
| CreateApp.UpdateEnvFileIdempotent | scripts/create-app.ts:319-348 | updating twice is updating once |
| CreateApp.IdsBlock | scripts/create-app.ts:361-371 | the `ids` object has a `prod` line iff there is a production ID |
| CreateApp.NewAppEntry | scripts/create-app.ts:373-376 | the entry starts with the quoted name as key, and holds no `;` for names without one |
| CreateApp.RewriteAppsBody | scripts/create-app.ts:385-392 | an empty or comment-only body becomes just the entry; otherwise the entry is appended |
| CreateApp.AppendEntry | scripts/create-app.ts:389-391 | the old body is a prefix, the entry ends the result, and a comma precedes it; one is added only when the trimmed body lacks one |
| CreateApp.SeparatorComma | scripts/create-app.ts:389-391 | after the separator, the body's last non-blank character is a comma |
| CreateApp.FindAppsBody | scripts/create-app.ts:379 | the lazy match: the body runs from the first header to the first `\n};` after it; none iff that is missing |
| CreateApp.UpdateConfigFile | scripts/create-app.ts:353-404 | no update iff no apps object is found; otherwise the file holds the new entry |
| CreateApp.EntryInBody | scripts/create-app.ts:385-392 | the rewritten body holds the entry |
| CreateApp.UpdatedBodyReadBack | scripts/create-app.ts:379-397 | the update splices in the rewritten body, and matching again captures that body, the text around it unchanged |
| CreateApp.ReadBackSpliced | scripts/create-app.ts:379-397 | any body free of `\n};` and ending in a line break is what the pattern captures after the splice |
| RemoveApp.ConfirmedSpellings | scripts/remove-app.ts:54 | exactly the eight mixed-case spellings of `yes` confirm |
| RemoveApp.PlanRemoval | scripts/remove-app.ts:23-58 | an empty name, an unknown app and an unconfirmed removal each stop; a removal targets `toEnvVarName(appName)` |
| RemoveApp.FilterEnvLinesAsWritten | scripts/remove-app.ts:97-125 | the loop keeps exactly the lines that are not a variable line, not a comment above one, and not reached while `skipNext` is set |
| RemoveApp.RemoveEnvAsWritten | scripts/remove-app.ts:97-126 | the result is exactly the lines the filter loop keeps, joined with `\n`; no line starts with the variable, the lines keep their order, and nothing changes when no line starts with the variable |
| RemoveApp.AsWrittenFacts | scripts/remove-app.ts:100-117 | no kept line starts with the variable, and every line is kept when none does |
| RemoveApp.FilterEnvLines | scripts/remove-app.ts:100-117 | the corrected filter keeps exactly the lines that are neither a match nor the comment above one, in order, and never a matching line |
| RemoveApp.AsWrittenWithinCorrected | scripts/remove-app.ts:102-123 | the loop as written keeps a subsequence of what the corrected filter keeps |
| RemoveApp.AsWrittenAgrees | scripts/remove-app.ts:102-123 | the two agree unless `skipNext` reaches an ordinary line |
| RemoveApp.DropsLineAfterPair | scripts/remove-app.ts:116-122 | a comment, its variable and an unrelated line: the loop drops all three, the corrected filter keeps the third |
| RemoveApp.RemoveEnvEntries | scripts/remove-app.ts:97-126 | after the corrected removal no line starts with a target, and the lines of the result are the kept lines of the old content, in order |
| RemoveApp.CreatedVars | scripts/create-app.ts:321-322 | exactly two non-empty line targets, free of line breaks for names without one; `RemoveApp.CreateThenRemove` shows they are the lines the wizard writes |
| RemoveApp.AsWrittenMissesCreatedLines | scripts/remove-app.ts:41 | `<PREFIX>_ID` is not a prefix of a line assigning `<PREFIX>_DEV_ID` or `<PREFIX>_PROD_ID` |
| RemoveApp.CreatedLinesSurvive | scripts/remove-app.ts:97-125 | both lines the wizard wrote for `shop` survive the removal as written |
| RemoveApp.CreateThenRemove | scripts/create-app.ts:319-348 | after creation both variables are assigned (production when given); after the corrected removal neither is |
| RemoveApp.CreatedVarsExact | scripts/remove-app.ts:115 | one valid app's corrected targets never match another valid app's lines |
| Common.AutoNum | apps/app1/src/common.js:21-23 | the number starts with `<prefix>-`, ends with `-<uniqueid>`, and is two longer than the parts |
| Common.AutoNumSplits | material-management-demo/src/common.js:11-13 | with parts free of `-`, splitting on `-` gives the three parts back |
| Common.NoSpace | apps/app1/src/common.js:33 | whitespace is removed; text without whitespace is unchanged |
| Common.NoSpaceConcat | material-management-demo/src/common.js:18 | removing whitespace distributes over concatenation |
| Common.CharLimit | apps/app1/src/common.js:32-35 | false whenever min > max; for whitespace-free text, true iff min ≤ length ≤ max; for whitespace only, iff min ≤ 0 ≤ max |
| Common.CharLimitIgnoresSpace | material-management-demo/src/common.js:17-20 | inserting or removing whitespace never changes the result |
| Strings.Split | scripts/utils.ts:27 | `split` gives at least one part; no part holds the separator; joining gives the text back |
| Strings.SplitJoin | scripts/utils.ts:27 | joining separator-free parts and splitting again gives the parts |
| Strings.Trim | scripts/utils.ts:27 | `trim` leaves no blank at either end and never lengthens |
| Strings.TrimIsMiddle | scripts/create-app.ts:385 | the trimmed text is the middle between two whitespace runs |
| Strings.TrimIdempotent | scripts/create-app.ts:162 | trimming twice is trimming once |
| Strings.LastIndexOf | scripts/create-plugin.ts:360 | `lastIndexOf` finds the last occurrence; None iff there is none |
| Strings.IndexFrom | scripts/create-app.ts:379 | `indexOf` from k finds the first occurrence at or after k |
| Strings.LowerIsLetter | scripts/create-plugin.ts:465-466 | `s.toLowerCase() === 'x'` iff s is x in either case |
| Sorting.SortDesc | scripts/restore-records.ts:108-109 | `sort().reverse()` gives a permutation in descending order |
| Sorting.SortDescHeadIsMax | scripts/upload-plugin.ts:41 | the first sorted name is the greatest input name |
| Json.Put | scripts/deploy-schema.ts:328 | `obj[k] = v`: k holds v, other keys are unchanged, an existing key keeps its place and a new key goes last |
| Json.Without | scripts/restore-records.ts:57-63 | dropping keys keeps the other members, in order, with their values |
| Seqs.Filter | scripts/deploy-schema.ts:191-199 | `filter` keeps exactly the elements satisfying the predicate, in order |

## Left out

- Network and platform calls. They are parameters: `fails` and `rejected` mark rejected calls, the record server is a stub, and `downloaded` is a download outcome.
- File reads and writes, directory listings and `existsSync`. They are parameters or `Option` values. The directory deletions of `remove-app` are not modelled.
- `readline` prompts. They are the typed answers.
- `process.argv` and `process.env`. They are sequences and options.
- `process.exit`. It is an outcome constructor.
- Console output. It is not modelled.
- `parseArgs` of `deploy-schema`. It follows the same scan as the backup script's. Deploy's `dryRun` and `backup` are inputs of `DeployExecute.RunApp`.
- `backupBeforeDeploy`. Only its success or failure (`backupSucceeds`) is modelled.
- `JSON.stringify` equality. It is datatype equality on JSON values whose object members keep their order. Integer-like key ordering is not modelled.
- Unicode case mapping and the `\s` class. They are restricted to ASCII. Sort order is by character code, and UTF-16 surrogate order is not distinguished.
- `Number(s)` and `NaN`. These are the parameter `isNumeric`.
- `parseInt` of `$id`. Ids are natural numbers.
- Timestamps and timestamped backup file names.
- The `$` replacement patterns of `String.prototype.replace`. The apps body is spliced in literally.
- The regex rewrite of `kintone.config.ts` in `remove-app` (`scripts/remove-app.ts:133-163`). It is regex and brace matching over free text.
- Template generators, the icon placeholder, the sample customisations and type stubs.
- Vite and Terser builds, `execSync`, `spawn`, watchers and timers.
- `fetch-schema`.
- `getKintoneConfig` and `getAppId`. They are not part of this model; their results are parameters.
- The `!existsSync(srcDir)` check of `buildPlugin`. Plugin names come from the directory listing.
- Common.CharLimit: `min` and `max` are integers; fractional and `NaN` bounds are not modelled.
- Common.CharLimit: counts characters (code points). `String.prototype.length` at `apps/app1/src/common.js:34` counts UTF-16 code units, so a character outside the Basic Multilingual Plane counts twice in the source.
- BuildPlugin.BuildPlan: assumes `manifest.json` parses. A `JSON.parse` that throws at `scripts/build-plugin.ts:157` is not modelled; it would reject `main` and end the whole run through the handler at `scripts/build-plugin.ts:219-222`, building no further plugin.
- Utils.ToEnvVarName: upper-cases ASCII letters only.
- Utils.TargetAppsRoundTrip: assumes the runtime path is not `--` and the names carry no comma or outer blank.
- CreateApp.IdsBlock: states the line structure only for prefixes without a line break. Names from the wizard never hold one.
- RemoveApp.CreateThenRemove: assumes the app name holds no line break. The wizard's names never do.
- BuildPlugin.SafeNameInjective: assumes names without `_`. Accepted plugin names never hold one.
- UploadPlugin.CutAtUnderscore: treats only `\n` as a line terminator for `.`. JavaScript also excludes `\r`, U+2028 and U+2029.
- DeployExecute.DeploySchema: models the order and failure of the calls. The request bodies are `DeployExecute.Request`.

## Findings

| source | as written | input that shows it | evidently intended | confidence | as-written member | corrected member |
|---|---|---|---|---|---|---|
| scripts/create-app.ts:336-345 | a variable counts as present when its name occurs anywhere in `.env` (`includes`) | `.env` holding `X_A_DEV_ID=1`, new app `a`: `A_DEV_ID` is never written | append unless a line assigns the variable | not executed | CreateApp.UpdateEnvFileAsWritten, CreateApp.EnvSubstringHidesVariable | CreateApp.UpdateEnvFile |
| scripts/create-app.ts:100-115 | a blank production name falls back to the development name when it does not end in `-dev`; the existence check passes because nothing is created yet | development name `shop`, blank production name, production ID `2`: both setups write `SHOP_DEV_ID`, and the production ID is lost | a production name distinct from the development name | not executed | CreateApp.SeparateSetupsAsWritten, CreateApp.SeparateSetupsShareName, CreateApp.SharedNameLosesProdId, CreateApp.SameNameWizard | CreateApp.SeparateSetups, CreateApp.DevEnvVarsDiffer, CreateApp.WizardsAgree |
| scripts/remove-app.ts:102-123 | `skipNext` is not cleared by the `continue` on a variable line | lines `# a`, `APP_ID=1`, `OTHER=2`: all three are removed | remove only the variable and its comment | not executed | RemoveApp.FilterEnvLinesAsWritten, RemoveApp.DropsLineAfterPair | RemoveApp.FilterEnvLines, RemoveApp.AsWrittenWithinCorrected |
| scripts/remove-app.ts:41 | the variable removed is `<PREFIX>_ID`, while `scripts/create-app.ts:321-322` writes `<PREFIX>_DEV_ID` and `<PREFIX>_PROD_ID` | app `shop`: lines `SHOP_DEV_ID=1` and `SHOP_PROD_ID=2` both survive | remove the variables the wizard wrote | not executed | RemoveApp.AsWrittenMissesCreatedLines, RemoveApp.CreatedLinesSurvive | RemoveApp.RemoveEnvEntries, RemoveApp.CreatedVars, RemoveApp.CreateThenRemove |
| scripts/create-app.ts:342-343 | the production line is appended right after the file's last character | `.env` holding `A_DEV_ID=1` without a final line break, app `a`, production ID `2`: the file becomes `A_DEV_ID=1A_PROD_ID=2\n` and no line assigns `A_PROD_ID` | start the production line on a line of its own | not executed | CreateApp.ProdStepAsWritten, CreateApp.ProdLineGluedToLastLine | CreateApp.WithProdLine, CreateApp.EnsureNewline, CreateApp.UpdateEnvFile |
| scripts/upload-plugin.ts:32-41 | candidate packages are found by a name-prefix match | plugin `test` with `test.zip` and `test2.zip` present: `test2.zip` is uploaded | only the plugin's own packages | not executed | UploadPlugin.ChooseZipAsWritten, UploadPlugin.OtherPluginChosen, UploadPlugin.OtherPluginUploaded | UploadPlugin.ChooseZip, UploadPlugin.OwnPackageChosen, UploadPlugin.PackagedPluginUploaded |
