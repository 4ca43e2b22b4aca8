# vsc-tab bookmark store, modelled in Dafny

The vsc-tab extension keeps a list of bookmarked folders ("tabs", each an id, a
display name and a folder path) and one nullable active tab id. The class
`ProjectsProvider` in `src/projectsProvider.ts` owns both. It loads them from the
host's global state, migrating two legacy shapes on first use. It adds, removes,
renames and switches bookmarks, and it works out which bookmark is active from
the folder the editor has open. This project models that class.

Layout:

- `wrappers.dfy` (`Wrappers`): `Option` for nullable values, and JavaScript truthiness of optional strings (`x || fallback`).
- `paths.dfy` (`Paths`): `path.basename` on POSIX paths.
- `bookmarks.dfy` (`Bookmarks`): the `Tab` record, open workspace folders, and the `find`/`some` lookups by path and by id.
- `persistence.dfy` (`Persistence`): what `load` reads, the restore of the current list, the legacy migration, and the save/load round trip.
- `operations.dfy` (`Operations`): each operation's effect on the tab list and the active id, as functions, with the lemmas that state what they promise.
- `provider.dfy` (`Provider`): the class `ProjectsProvider`. Its fields `tabs: seq<Tab>` and `activeTabId: Option<string>` are reassigned by methods whose loops are proved against the functions of `Operations` and `Persistence`.

The host is replaced by parameters:

- The open workspace folders are a `seq<Folder>`.
- File-system existence is a `set<string>` of existing paths.
- Each name prompt's answer is an `Option<string>`, with `None` for a dismissed prompt.
- The remove confirmation is a `bool`.
- The folders picked in the open dialog are a `seq<string>`.
- The id generator (`Date.now` plus `Math.random`) is a supply `gen: nat -> string`. The class counts its calls in `issued`.

Persistence becomes a ghost log `saves` of every write of the two keys. The two
change notifications become ghost counters `treeFires` and `tabFires`.

Where the code's behaviour may be unexpected, the model follows the code:

- Migration precedence depends on whether the legacy multi-folder list is non-empty, not on whether it yields a tab. Entries whose folder lists are all empty hide the flat project list (`LegacyTabsShadowProjects`, `LegacyTabsTakePrecedence`).
- `removeTab` clears the active id and then calls `refresh`. That refresh can make another tab active when exactly one folder is open and a remaining tab bookmarks it. What always holds is that the removed id is never active afterwards (`RemovedNeverActive`).
- `saveCurrentAsTab` prompts for a name only when exactly one folder is open. Otherwise it uses each folder's own name.
- Detection never clears an active id: when no tab bookmarks the open folder, or several or no folders are open, it keeps the old id, even one that no tab has (`DetectActiveKeeps`).
- Detection takes the first tab whose path matches. Paths are unique only for tabs appended by add and save-current: `load` never removes duplicates.
- Ids are unique only if the generator never repeats an id and never returns a stored one. The constructor and the four list-changing commands (`SaveCurrentAsTab`, `AddTab`, `RemoveTab`, `RenameTab`) each state this conditionally (`IdsUnique`). The other commands (`SwitchTab`, `SwitchTabById`, `DetectActiveTab`, `Refresh`) cannot change the list or the generator count, because their `modifies` frames exclude `tabs` and `issued`.
- A migrated folder whose name is missing and whose path has no last segment (`""` or `/`) gets an empty name. After a reload that name reads as 'Unnamed' (`ReloadRoundTrip`).

## Model

| member | source | states |
|---|---|---|
| `Wrappers.OrElse` | src/projectsProvider.ts:78-80 | `s \|\| fallback` is the fallback or the present value, and is non-empty iff the value is truthy or the fallback is non-empty (so an 'Unnamed' default never gives an empty name) |
| `Paths.BaseName` | src/projectsProvider.ts:93 | the base name holds no separator and is no longer than the path |
| `Paths.LastSegment` | src/projectsProvider.ts:93 | the last segment holds no separator and is no longer than the path |
| `Paths.StripTrailingSlashes` | src/projectsProvider.ts:93 | ignoring trailing separators never lengthens the path, and shortens it only when it ends in '/' |
| `Paths.LastSegmentIsSuffix` | src/projectsProvider.ts:93 | the last segment is a suffix of the path, preceded by a separator unless it is the whole path |
| `Paths.StripTrailingSlashesIsPrefix` | src/projectsProvider.ts:93 | trailing separators are ignored: only a trailing run of '/' is dropped, and what is left does not end in '/' |
| `Paths.BaseNameOfJoin` | src/projectsProvider.ts:93 | the base name of `dir/seg` followed by any number of trailing separators is `seg` |
| `Bookmarks.IndexOfPath` | src/projectsProvider.ts:128 | `find` by path: the first index whose tab has the path, or the length iff no tab has it |
| `Bookmarks.IndexOfId` | src/projectsProvider.ts:154 | `find` by id: the first index whose tab has the id, or the length iff no tab has it |
| `Bookmarks.PathIn` | src/projectsProvider.ts:241 | `tabs.some(t => t.path === p)`: some tab has path p; `PathInSnoc` states how a push changes it |
| `Bookmarks.PathInSnoc` | src/projectsProvider.ts:195 | `tabs.some(t => t.path === p)` after a push: true iff it was true before or the pushed tab has path p |
| `Persistence.Persist` | src/projectsProvider.ts:115 | saving writes one stored record per tab |
| `Persistence.MissingIds` | src/projectsProvider.ts:78 | the number of generator calls during restore is at most the number of records |
| `Persistence.RestoreOne` | src/projectsProvider.ts:77-81 | a restored tab never has an empty name; its path is empty only when the stored one is missing or empty; a usable stored id is kept, and a generated id is empty only if the generator returned "" |
| `Persistence.Restore` | src/projectsProvider.ts:77-81 | the stored list maps to exactly one tab per record |
| `Persistence.MissingIdsGrows` | src/projectsProvider.ts:78 | each record without an id consumes a new generator call, so generated ids come from distinct calls |
| `Persistence.RestoreFields` | src/projectsProvider.ts:77-81 | record k becomes tab k and keeps its id; a missing name becomes 'Unnamed' and a missing path becomes '' |
| `Persistence.RestoreIdsUnique` | src/projectsProvider.ts:77-81 | with distinct stored ids and a non-repeating generator, restored ids are unique and later generated ids are fresh |
| `Persistence.ReloadRoundTrip` | src/projectsProvider.ts:77-81 | loading what save wrote gives the same list back iff every name is non-empty |
| `Persistence.FoldersOf` | src/projectsProvider.ts:89 | a present `folders` list wins even when empty; without it a present `projects` list is used; a folder comes only from a present `folders` or `projects` list |
| `Persistence.Flatten` | src/projectsProvider.ts:88-97 | the folders of every legacy entry, concatenated in entry order; `FlattenEmpty` and `FlattenConcat` state what it yields |
| `Persistence.FlattenEmpty` | src/projectsProvider.ts:88-97 | the legacy entries yield no folder iff every entry's folder list is empty |
| `Persistence.FlattenConcat` | src/projectsProvider.ts:88-97 | each legacy entry contributes its folders as one contiguous run, in entry order |
| `Persistence.Migrated` | src/projectsProvider.ts:88-106 | migration pushes exactly one tab per legacy folder |
| `Persistence.MigratedFields` | src/projectsProvider.ts:90-95 | folder k migrates to tab k with the k-th generated id and the folder's path; its name is the folder's own name when present, else the last segment of the path |
| `Persistence.MigrateOne` | src/projectsProvider.ts:91-95 | a migrated tab has the given id and the folder's path; its name is empty iff the folder has no name and its path has no last segment; a derived name holds no separator |
| `Persistence.MigratedSnoc` | src/projectsProvider.ts:91-95 | pushing one more legacy folder extends the list by its tab, with the next generated id |
| `Persistence.MigratedIdsUnique` | src/projectsProvider.ts:91-95 | migrated tabs have distinct ids and later generated ids are fresh |
| `Persistence.LoadedTabs` | src/projectsProvider.ts:77-84 | a non-empty stored list yields a tab list of the same length |
| `Persistence.CurrentListSkipsMigration` | src/projectsProvider.ts:84 | with a non-empty stored list, load is the restore alone and saves nothing |
| `Persistence.LegacyTabsShadowProjects` | src/projectsProvider.ts:86-107 | for any state with no current list and a non-empty legacy tab list whose entries all yield no folder, the flat project list is hidden: nothing is loaded or saved |
| `Persistence.MigrationSource` | src/projectsProvider.ts:86-106 | the folders migration pushes: the flattened legacy entries when that list is non-empty, else the flat project list; `LegacyTabsTakePrecedence` and `LegacyTabsShadowProjects` state the precedence |
| `Persistence.LegacyTabsTakePrecedence` | src/projectsProvider.ts:84-107 | with a non-empty legacy tab list, the flat project list has no effect on the tabs loaded, the save, or the ids used |
| `Persistence.LoadSaves` | src/projectsProvider.ts:108-110 | whether load saves; `LoadSavesOnlyAfterMigration` states it as an iff with "migration produced a tab" |
| `Persistence.LoadSavesOnlyAfterMigration` | src/projectsProvider.ts:108-110 | load saves iff there was no current list and migration produced at least one tab |
| `Persistence.MigrationScenario` | src/projectsProvider.ts:84-111 | one legacy entry with folders a and b loads exactly the tabs for a then b, and saves |
| `Persistence.MigrateThenReload` | src/projectsProvider.ts:84-111 | after migration is saved, when every migrated name is non-empty and the generator never returns "", the next load takes the saved list unchanged and neither migrates nor saves |
| `Persistence.IdsUsedByLoad` | src/projectsProvider.ts:77-106 | the number of `genId` calls load makes: one per stored record without an id, or one per migrated folder; `Provider.ProjectsProvider.Load` counts exactly that many calls and `LoadIdsUnique` keeps every later id fresh |
| `Persistence.LoadIdsUnique` | src/projectsProvider.ts:73-112 | after load, ids are unique and later generated ids are fresh, given distinct stored ids and a non-repeating generator |
| `Operations.Detects` | src/projectsProvider.ts:126-129 | whether detection fires: exactly one open folder, bookmarked by some tab; `DetectActive` and `DetectActiveKeeps` state both outcomes |
| `Operations.DetectActive` | src/projectsProvider.ts:124-136 | with exactly one open folder that a tab bookmarks, the active id becomes the id of a tab with that path; otherwise it is kept |
| `Operations.DetectActiveFindsBookmark` | src/projectsProvider.ts:124-136 | with one open folder whose first bookmarking tab is tab i, tab i becomes active whatever was active before, even when later tabs share the path |
| `Operations.DetectActiveKeeps` | src/projectsProvider.ts:124-136 | with zero or several open folders, or no matching tab, the active id is kept |
| `Operations.DetectActiveIdempotent` | src/projectsProvider.ts:124-136 | detecting twice is the same as detecting once |
| `Operations.Appends` | src/projectsProvider.ts:195-206 | whether the append loop pushes a candidate: its path is not bookmarked and it has a non-empty name; `AddVerdict` and `AppendNewStep` state it per candidate |
| `Operations.AppendNew` | src/projectsProvider.ts:238-262 | the append loop never shrinks the list and appends at most one tab per candidate |
| `Operations.AppendNewPrefix` | src/projectsProvider.ts:257-261 | the loop only pushes: the tabs it started from are left unchanged at the front |
| `Operations.AppendNewPaths` | src/projectsProvider.ts:238-262 | a path is bookmarked after the loop iff it was before or some candidate with that path got a name |
| `Operations.AppendNewStep` | src/projectsProvider.ts:238-262 | step k appends exactly when candidate k has a name, is not bookmarked, and no earlier same-path candidate had a name; so the new list is the old one plus the taken candidates in order |
| `Operations.AppendNewNoDuplicate` | src/projectsProvider.ts:241-244 | no appended tab repeats the path of any earlier tab, including one appended earlier in the same batch |
| `Operations.AppendNewUniquePaths` | src/projectsProvider.ts:241-244 | appending keeps paths unique |
| `Operations.AppendNewAppended` | src/projectsProvider.ts:251-261 | each appended tab has the next generated id, a non-empty name, and the path and name of one of the candidates |
| `Operations.AppendNewUniqueIds` | src/projectsProvider.ts:257-261 | appending keeps ids unique when the generator neither repeats nor reuses an id |
| `Operations.AppendNewStaysFresh` | src/projectsProvider.ts:257-261 | after appending, later generated ids are still fresh |
| `Operations.AppendNewKeepsUnique` | src/projectsProvider.ts:238-262 | appending preserves both uniqueness invariants |
| `Operations.AddNames` | src/projectsProvider.ts:245-255 | one usable name per picked folder |
| `Operations.AddVerdict` | src/projectsProvider.ts:241-255 | a candidate is reported already added iff its path is bookmarked; missing (the error) iff it is not bookmarked and does not exist; cancelled (silent) iff it exists unbookmarked and got no name; added iff the loop appends it under the name it was given |
| `Operations.AddVerdicts` | src/projectsProvider.ts:238-262 | one report per candidate tried |
| `Operations.AddVerdictsAt` | src/projectsProvider.ts:238-262 | candidate k's report is checked against the list as it stood when k was tried |
| `Operations.AddVerdictSpec` | src/projectsProvider.ts:238-262 | candidate k is added iff it exists, got a non-empty name, is not bookmarked, and no earlier pick of it got a name; it is reported as already added iff it was bookmarked before or an earlier pick of it was added |
| `Operations.FolderPaths` | src/projectsProvider.ts:194 | the candidate path of each open folder is that folder's path |
| `Operations.SaveNames` | src/projectsProvider.ts:199-204 | the name of each open folder is the prompt's answer when exactly one folder is open, else the folder's own name |
| `Operations.SavedTabs` | src/projectsProvider.ts:193-213 | the save-current loop appends at most one tab per open folder; as an instance of `AppendNew`, `AppendNewPrefix` keeps the existing ones at the front |
| `Operations.SavedTabsPaths` | src/projectsProvider.ts:193-213 | after the loop a path is bookmarked iff it was before or an open folder with that path got a non-empty name |
| `Operations.ActiveAfterSave` | src/projectsProvider.ts:215 | when a tab bookmarks the first open folder, the active id becomes the id of such a tab; otherwise it is kept |
| `Operations.ActiveAfterSaveFirstMatch` | src/projectsProvider.ts:215 | the active id after saving is the first tab bookmarking the first open folder, even when later tabs share the path |
| `Operations.SaveThenRefreshStable` | src/projectsProvider.ts:215-217 | the refresh at the end of save-current keeps the active id it chose |
| `Operations.SaveTwoFolders` | src/projectsProvider.ts:186-219 | two open folders, neither bookmarked, both named: two tabs in folder order, and the first becomes active |
| `Operations.RemoveId` | src/projectsProvider.ts:277 | the filter never lengthens the list |
| `Operations.RemoveIdMembers` | src/projectsProvider.ts:277 | the filter keeps exactly the tabs whose id differs from the removed one |
| `Operations.RemoveIdConcat` | src/projectsProvider.ts:277 | filtering distributes over concatenation, so the kept tabs keep their relative order |
| `Operations.RemoveIdAbsent` | src/projectsProvider.ts:277 | removing an id that no tab has changes nothing |
| `Operations.RemoveIdAt` | src/projectsProvider.ts:277 | with unique ids, removing tab i's id drops exactly tab i |
| `Operations.RemoveIdKeepsUnique` | src/projectsProvider.ts:277 | removing keeps ids and paths unique |
| `Operations.RemoveIdStaysFresh` | src/projectsProvider.ts:277 | removing keeps later generated ids fresh |
| `Operations.ActiveAfterRemove` | src/projectsProvider.ts:278-280 | the active id becomes null exactly when it was null or was the removed id; otherwise it is kept |
| `Operations.RemovedNeverActive` | src/projectsProvider.ts:277-282 | even after the refresh that follows, the removed id is not active |
| `Operations.Rename` | src/projectsProvider.ts:293-295 | renaming keeps the list length |
| `Operations.RenameApplies` | src/projectsProvider.ts:291 | whether `renameTab` goes on: a non-empty answer that differs from the item's name; `RenameAppliesChanges` states it as an iff with "the list changes" |
| `Operations.RenameAppliesChanges` | src/projectsProvider.ts:291-295 | given the item's current name, an answer renames the tab iff it is non-empty and actually changes the list |
| `Operations.RenameOnlyName` | src/projectsProvider.ts:293-295 | only the first tab with the id changes, and only its name; every id and path is kept |
| `Operations.RenameUndo` | src/projectsProvider.ts:293-295 | renaming back to the old name restores the list |
| `Operations.RenameKeepsUnique` | src/projectsProvider.ts:293-295 | renaming keeps ids and paths unique |
| `Operations.RenameStaysFresh` | src/projectsProvider.ts:293-295 | renaming keeps later generated ids fresh |
| `Operations.SwitchOpensTarget` | src/projectsProvider.ts:153-171 | a folder is opened iff the id is known, its folder exists and it is not active; the folder opened is the target's |
| `Operations.SwitchIdempotent` | src/projectsProvider.ts:162-163 | switching again to the same tab opens nothing |
| `Operations.SwitchOutcomeOf` | src/projectsProvider.ts:154-163 | the tab is unknown iff no tab has the id; an opened path exists and is bookmarked |
| `Operations.SwitchReportsKnownTab` | src/projectsProvider.ts:154-163 | a known tab reports the missing folder iff its folder does not exist, and is silently already active iff its folder exists and it is the active tab |
| `Operations.SwitchChecksExistenceFirst` | src/projectsProvider.ts:157-163 | for any list and any active id, a known tab whose folder is gone reports the missing folder |
| `Operations.ActiveAfterSwitch` | src/projectsProvider.ts:165 | the active id after a switch: the target only when a folder was opened; `SwitchActivatesTarget` gives it in closed form |
| `Operations.SwitchActivatesTarget` | src/projectsProvider.ts:163-165 | after a switch the target is active whenever it is known and its folder exists, whether opened now or already active; otherwise the active id is kept |
| `Provider.ProjectsProvider.constructor` | src/projectsProvider.ts:49-52 | construction is load, then detection; ids are unique given distinct stored ids and a non-repeating generator |
| `Provider.ProjectsProvider.GetTabs` | src/projectsProvider.ts:62 | returns the tab list |
| `Provider.ProjectsProvider.GetActiveTabId` | src/projectsProvider.ts:63 | returns the active id |
| `Provider.ProjectsProvider.GenId` | src/projectsProvider.ts:119-121 | returns the next id of the supply and counts the call |
| `Provider.ProjectsProvider.Save` | src/projectsProvider.ts:114-117 | writes the current list and active id |
| `Provider.ProjectsProvider.Refresh` | src/projectsProvider.ts:65-69 | re-detects the active tab and fires both notifications once; the list is unchanged |
| `Provider.ProjectsProvider.Load` | src/projectsProvider.ts:73-112 | the new list is `LoadedTabs`; the active id is the stored one; a save happens only after a migration that produced a tab |
| `Provider.ProjectsProvider.PushMigrated` | src/projectsProvider.ts:88-106 | the migration loop pushes one tab per legacy folder, with consecutive generated ids |
| `Provider.ProjectsProvider.DetectActiveTab` | src/projectsProvider.ts:124-136 | the active id becomes `DetectActive`, with a save exactly when a tab was found; the list is unchanged |
| `Provider.ProjectsProvider.SwitchTab` | src/projectsProvider.ts:153-174 | unknown id, missing folder or already active: nothing changes and nothing is opened; otherwise the target becomes active, is saved, its folder is opened and tab-change fires |
| `Provider.ProjectsProvider.SwitchTabById` | src/projectsProvider.ts:177-182 | the same as switching to the tab with that id; an unknown id changes nothing |
| `Provider.ProjectsProvider.SaveCurrentAsTab` | src/projectsProvider.ts:186-219 | with no open folder nothing changes; otherwise the unsaved named folders are appended, the first folder's tab becomes active, and both uniqueness invariants are kept |
| `Provider.ProjectsProvider.AppendOpenFolders` | src/projectsProvider.ts:193-213 | the loop's result is `SavedTabs`, with one generator call per appended tab |
| `Provider.ProjectsProvider.AppendIfNew` | src/projectsProvider.ts:194-212 | one pass appends the folder, with the next generated id, exactly when it is not bookmarked and has a non-empty name: the next step of `AppendNew` |
| `Provider.ProjectsProvider.AddTab` | src/projectsProvider.ts:223-267 | with no pick nothing changes; otherwise the list is the append loop's result, save, refresh and an extra tab-change fire follow, and both uniqueness invariants are kept |
| `Provider.ProjectsProvider.AddPicked` | src/projectsProvider.ts:238-262 | the loop's list and per-candidate reports are `AppendNew` and `AddVerdicts` |
| `Provider.ProjectsProvider.TryPicked` | src/projectsProvider.ts:239-261 | one pass reports already added, missing, cancelled or added in the source's order of checks, and its list is the next step of `AppendNew` |
| `Provider.ProjectsProvider.RemoveTab` | src/projectsProvider.ts:269-284 | unconfirmed: nothing changes; confirmed: every tab with the id is filtered out, the active id is cleared if it was that one, then save and refresh |
| `Provider.ProjectsProvider.RenameTab` | src/projectsProvider.ts:286-300 | an empty, dismissed or unchanged name, or a tab no longer present, changes nothing; otherwise only that tab's name changes, then save and refresh |

## Left out

- `TabTreeItem`, `getTreeItem` and `getChildren` (src/projectsProvider.ts:13-35, 140-149): tree rendering, a read-only view of the state.
- src/statusBarManager.ts and src/extension.ts: status-bar rendering, command registration and activation. They are not part of this model.
- The workspace-folder listener (src/projectsProvider.ts:54-58) does what `Refresh` does and is not modelled separately.
- Event emitters are modelled only as fire counters. Subscribers are not modelled.
- The global state is not a store here. It is read once as a `GlobalState` value, and its writes become the `saves` log.
- Messages (info, warning, error) are not modelled as such. `AddTab` returns a verdict per candidate and `SwitchTab` returns an outcome, which say which message the source shows. The messages of `saveCurrentAsTab` are not returned.
- The configured default folder of the open dialog (src/projectsProvider.ts:224-228) is left out: it only sets where the dialog starts.
- A dismissed open dialog and an empty selection take the same early return, so both are an empty `picked`.
- async/await: each operation is one atomic step. Opening a folder reloads the window; the model only returns the path opened.
- Stored records whose fields are not strings are out of scope. A legacy folder with neither a name nor a `path` makes `path.basename` throw, and a named legacy folder with no `path` migrates to a tab whose path is `undefined`; the model gives every legacy folder a path, so it captures neither.
- `Paths.BaseName` models POSIX `path.basename` only. Windows paths with drive letters and backslashes are left out.
- Aliasing is left out. `renameTab` assigns the name on the shared record object, and the model replaces the record in the sequence, so the tree item that points at the record is not modelled.
