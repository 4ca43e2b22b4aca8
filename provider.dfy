/** The bookmark store (`ProjectsProvider`): an ordered tab list and a nullable
    active id, updated in place by the operations the extension's commands call. */
module Provider {
  import opened Wrappers
  import opened Bookmarks
  import opened Persistence
  import opened Operations

  /** One write of the two keys the store persists. */
  datatype Snapshot = Snapshot(tabs: seq<Tab>, activeTabId: Option<string>)

  class ProjectsProvider {
    var tabs: seq<Tab>
    var activeTabId: Option<string>

    /** The host's id generator and how many ids it has handed out so far. */
    const gen: IdSupply
    var issued: nat

    /** Every write of the store to the global state, oldest first. */
    ghost var saves: seq<Snapshot>
    /** How often the tree-data and the tab-change notifications fired. */
    ghost var treeFires: nat
    ghost var tabFires: nat

    /** Ids are unique and no later generator call can return one in use. */
    ghost predicate IdsUnique()
      reads this
    {
      UniqueIds(tabs) && Injective(gen) && FreshFrom(gen, issued, tabs)
    }

    /** Loads the stored state, then detects the active tab from the open folders. */
    constructor (st: GlobalState, folders: seq<Folder>, gen: IdSupply)
      ensures this.gen == gen
      ensures tabs == LoadedTabs(st, gen, 0) && issued == IdsUsedByLoad(st)
      ensures activeTabId == DetectActive(tabs, st.activeTabId, folders)
      ensures saves == (if LoadSaves(st) then [Snapshot(tabs, st.activeTabId)] else [])
                       + (if Detects(tabs, folders) then [Snapshot(tabs, activeTabId)] else [])
      ensures treeFires == 0 && tabFires == 0
      ensures Injective(gen) && StoredIdsDistinct(st.projectTabs, gen) ==> IdsUnique()
    {
      this.gen := gen;
      tabs, activeTabId, issued := [], None, 0;
      saves, treeFires, tabFires := [], 0, 0;
      new;
      Load(st);
      DetectActiveTab(folders);
      if Injective(gen) && StoredIdsDistinct(st.projectTabs, gen) {
        LoadIdsUnique(st, gen, 0);
      }
    }

    /** `getTabs` */
    method GetTabs() returns (r: seq<Tab>)
      ensures r == tabs
    {
      r := tabs;
    }

    /** `getActiveTabId` */
    method GetActiveTabId() returns (r: Option<string>)
      ensures r == activeTabId
    {
      r := activeTabId;
    }

    /** `genId`: the next id of the host's generator. */
    method GenId() returns (id: string)
      modifies this`issued
      ensures id == gen(old(issued)) && issued == old(issued) + 1
    {
      id := gen(issued);
      issued := issued + 1;
    }

    /** `save`: writes both keys. */
    method Save()
      modifies this`saves
      ensures saves == old(saves) + [Snapshot(tabs, activeTabId)]
    {
      saves := saves + [Snapshot(tabs, activeTabId)];
    }

    /** `refresh`: re-detects the active tab and notifies. */
    method Refresh(folders: seq<Folder>)
      modifies this`activeTabId, this`saves, this`treeFires, this`tabFires
      ensures activeTabId == DetectActive(tabs, old(activeTabId), folders)
      ensures saves == old(saves) + if Detects(tabs, folders) then [Snapshot(tabs, activeTabId)] else []
      ensures treeFires == old(treeFires) + 1 && tabFires == old(tabFires) + 1
    {
      DetectActiveTab(folders);
      treeFires := treeFires + 1;
      tabFires := tabFires + 1;
    }

    /** `load`: the stored list with defaults filled in or, when it is empty,
        the migrated legacy list, saved if migration produced any tab. */
    method Load(st: GlobalState)
      modifies this`tabs, this`activeTabId, this`issued, this`saves
      ensures tabs == LoadedTabs(st, gen, old(issued))
      ensures activeTabId == st.activeTabId
      ensures issued == old(issued) + IdsUsedByLoad(st)
      ensures saves == old(saves) + if LoadSaves(st) then [Snapshot(tabs, activeTabId)] else []
    {
      activeTabId := st.activeTabId;
      tabs := Restore(st.projectTabs, gen, issued);
      issued := issued + MissingIds(st.projectTabs);
      if |tabs| == 0 {
        ghost var base := issued;
        if |st.legacyTabs| > 0 {
          for i := 0 to |st.legacyTabs|
            invariant tabs == Migrated(Flatten(st.legacyTabs[..i]), gen, base)
            invariant issued == base + |tabs|
            invariant activeTabId == st.activeTabId && saves == old(saves)
          {
            PushMigrated(FoldersOf(st.legacyTabs[i]), Flatten(st.legacyTabs[..i]), base);
            assert st.legacyTabs[..i + 1][..i] == st.legacyTabs[..i];
          }
          assert st.legacyTabs[..|st.legacyTabs|] == st.legacyTabs;
        } else {
          PushMigrated(st.legacyProjects, [], base);
        }
        if |tabs| > 0 {
          Save();
        }
      }
    }

    /** The migration's inner loop: pushes one tab per legacy folder, each with a generated id. */
    method PushMigrated(folders: seq<LegacyFolder>, ghost done: seq<LegacyFolder>, ghost base: nat)
      requires tabs == Migrated(done, gen, base) && issued == base + |tabs|
      modifies this`tabs, this`issued
      ensures tabs == Migrated(done + folders, gen, base) && issued == base + |tabs|
    {
      for j := 0 to |folders|
        invariant tabs == Migrated(done + folders[..j], gen, base)
        invariant issued == base + |tabs|
      {
        var f := folders[j];
        var id := GenId();
        MigratedSnoc(done + folders[..j], f, gen, base);
        assert done + folders[..j + 1] == (done + folders[..j]) + [f];
        tabs := tabs + [MigrateOne(f, id)];
      }
      assert folders[..|folders|] == folders;
    }

    /** `detectActiveTab` */
    method DetectActiveTab(folders: seq<Folder>)
      modifies this`activeTabId, this`saves
      ensures activeTabId == DetectActive(tabs, old(activeTabId), folders)
      ensures saves == old(saves) + if Detects(tabs, folders) then [Snapshot(tabs, activeTabId)] else []
    {
      if |folders| == 1 {
        var openPath := folders[0].path;
        var i := IndexOfPath(tabs, openPath);
        if i < |tabs| {
          activeTabId := Some(tabs[i].id);
          Save();
          return;
        }
      }
    }

    /** `switchTab`: opens the folder of a known, existing tab that is not already active. */
    method SwitchTab(item: Tab, existing: set<string>) returns (outcome: SwitchOutcome)
      modifies this`activeTabId, this`saves, this`tabFires
      ensures outcome == SwitchOutcomeOf(tabs, old(activeTabId), item.id, existing)
      ensures activeTabId == ActiveAfterSwitch(outcome, old(activeTabId), item.id)
      ensures saves == old(saves) + if outcome.Opened? then [Snapshot(tabs, activeTabId)] else []
      ensures tabFires == old(tabFires) + if outcome.Opened? then 1 else 0
    {
      var i := IndexOfId(tabs, item.id);
      if i == |tabs| {
        return UnknownTab;
      }
      var tab := tabs[i];
      if tab.path !in existing {
        return MissingFolder;
      }
      if Some(tab.id) == activeTabId {
        return AlreadyActive;
      }
      activeTabId := Some(tab.id);
      Save();
      outcome := Opened(tab.path);
      tabFires := tabFires + 1;
    }

    /** `switchTabById`: silently nothing for an unknown id, otherwise `switchTab`. */
    method SwitchTabById(tabId: string, existing: set<string>) returns (outcome: SwitchOutcome)
      modifies this`activeTabId, this`saves, this`tabFires
      ensures outcome == SwitchOutcomeOf(tabs, old(activeTabId), tabId, existing)
      ensures activeTabId == ActiveAfterSwitch(outcome, old(activeTabId), tabId)
      ensures saves == old(saves) + if outcome.Opened? then [Snapshot(tabs, activeTabId)] else []
      ensures tabFires == old(tabFires) + if outcome.Opened? then 1 else 0
    {
      var i := IndexOfId(tabs, tabId);
      if i == |tabs| {
        return UnknownTab;
      }
      outcome := SwitchTab(tabs[i], existing);
    }

    /** `saveCurrentAsTab`: bookmarks every open folder not bookmarked yet and
        makes the first open folder's tab active. */
    method SaveCurrentAsTab(folders: seq<Folder>, prompt: Option<string>)
      modifies this`tabs, this`activeTabId, this`issued, this`saves, this`treeFires, this`tabFires
      ensures |folders| == 0 ==>
        && tabs == old(tabs) && activeTabId == old(activeTabId) && issued == old(issued)
        && saves == old(saves) && treeFires == old(treeFires) && tabFires == old(tabFires)
      ensures |folders| > 0 ==>
        && tabs == SavedTabs(old(tabs), folders, prompt, gen, old(issued))
        && issued == old(issued) + |tabs| - |old(tabs)|
        && activeTabId == ActiveAfterSave(tabs, folders, old(activeTabId))
        && saves == old(saves) + [Snapshot(tabs, activeTabId)]
                    + (if Detects(tabs, folders) then [Snapshot(tabs, activeTabId)] else [])
        && treeFires == old(treeFires) + 1 && tabFires == old(tabFires) + 1
      ensures old(IdsUnique()) ==> IdsUnique()
      ensures UniquePaths(old(tabs)) ==> UniquePaths(tabs)
    {
      if |folders| == 0 {
        return;
      }
      AppendOpenFolders(folders, prompt);
      var i := IndexOfPath(tabs, folders[0].path);
      if i < |tabs| {
        activeTabId := Some(tabs[i].id);
      }
      Save();
      SaveThenRefreshStable(tabs, folders, old(activeTabId));
      Refresh(folders);
      AppendNewKeepsUnique(old(tabs), FolderPaths(folders), SaveNames(folders, prompt), |folders|, gen, old(issued));
    }

    /** The loop of `saveCurrentAsTab`: appends each open folder that is not
        bookmarked yet under its chosen name. */
    method AppendOpenFolders(folders: seq<Folder>, prompt: Option<string>)
      modifies this`tabs, this`issued
      ensures tabs == SavedTabs(old(tabs), folders, prompt, gen, old(issued))
      ensures issued == old(issued) + |tabs| - |old(tabs)|
    {
      ghost var paths, names := FolderPaths(folders), SaveNames(folders, prompt);
      for k := 0 to |folders|
        invariant tabs == AppendNew(old(tabs), paths, names, k, gen, old(issued))
        invariant issued == old(issued) + |tabs| - |old(tabs)|
      {
        var wf := folders[k];
        var tabName := if |folders| == 1 then prompt else Some(wf.name);
        AppendIfNew(wf.path, tabName, paths, names, k, old(tabs), old(issued));
      }
    }

    /** One step of the append loop: bookmarks `p` under `name` unless `p` is
        already bookmarked or `name` is empty or absent; `p` and `name` are
        candidate k of the loop that started from `start` with `next` ids issued. */
    method AppendIfNew(p: string, name: Option<string>, ghost paths: seq<string>, ghost names: seq<Option<string>>,
                       ghost k: nat, ghost start: seq<Tab>, ghost next: nat)
      requires k < |paths| && |names| == |paths| && paths[k] == p && names[k] == name
      requires tabs == AppendNew(start, paths, names, k, gen, next) && issued == next + |tabs| - |start|
      modifies this`tabs, this`issued
      ensures tabs == AppendNew(start, paths, names, k + 1, gen, next) && issued == next + |tabs| - |start|
    {
      if !PathIn(tabs, p) && Truthy(name) {
        var id := GenId();
        tabs := tabs + [Tab(id, name.value, p)];
      }
    }

    /** `addTab`: tries each picked folder in order and reports what became of it. */
    method AddTab(picked: seq<string>, existing: set<string>, answers: seq<Option<string>>, folders: seq<Folder>)
      returns (verdicts: seq<Verdict>)
      requires |answers| == |picked|
      modifies this`tabs, this`activeTabId, this`issued, this`saves, this`treeFires, this`tabFires
      ensures verdicts == AddVerdicts(old(tabs), picked, existing, answers, |picked|, gen, old(issued))
      ensures |picked| == 0 ==>
        && tabs == old(tabs) && activeTabId == old(activeTabId) && issued == old(issued)
        && saves == old(saves) && treeFires == old(treeFires) && tabFires == old(tabFires)
      ensures |picked| > 0 ==>
        && tabs == AppendNew(old(tabs), picked, AddNames(picked, existing, answers), |picked|, gen, old(issued))
        && issued == old(issued) + |tabs| - |old(tabs)|
        && activeTabId == DetectActive(tabs, old(activeTabId), folders)
        && saves == old(saves) + [Snapshot(tabs, old(activeTabId))]
                    + (if Detects(tabs, folders) then [Snapshot(tabs, activeTabId)] else [])
        && treeFires == old(treeFires) + 1 && tabFires == old(tabFires) + 2
      ensures old(IdsUnique()) ==> IdsUnique()
      ensures UniquePaths(old(tabs)) ==> UniquePaths(tabs)
    {
      verdicts := [];
      if |picked| == 0 {
        return;
      }
      verdicts := AddPicked(picked, existing, answers);
      Save();
      Refresh(folders);
      tabFires := tabFires + 1;
      AppendNewKeepsUnique(old(tabs), picked, AddNames(picked, existing, answers), |picked|, gen, old(issued));
    }

    /** The loop of `addTab`: skips a folder already bookmarked, a folder that
        does not exist and a folder whose name prompt was dismissed or left
        empty, and appends every other one. */
    method AddPicked(picked: seq<string>, existing: set<string>, answers: seq<Option<string>>)
      returns (verdicts: seq<Verdict>)
      requires |answers| == |picked|
      modifies this`tabs, this`issued
      ensures tabs == AppendNew(old(tabs), picked, AddNames(picked, existing, answers), |picked|, gen, old(issued))
      ensures issued == old(issued) + |tabs| - |old(tabs)|
      ensures verdicts == AddVerdicts(old(tabs), picked, existing, answers, |picked|, gen, old(issued))
    {
      ghost var names := AddNames(picked, existing, answers);
      verdicts := [];
      for k := 0 to |picked|
        invariant tabs == AppendNew(old(tabs), picked, names, k, gen, old(issued))
        invariant issued == old(issued) + |tabs| - |old(tabs)|
        invariant verdicts == AddVerdicts(old(tabs), picked, existing, answers, k, gen, old(issued))
      {
        var v := TryPicked(picked[k], existing, answers[k], picked, names, k, old(tabs), old(issued));
        verdicts := verdicts + [v];
      }
    }

    /** One pass of the loop of `addTab` for `folderPath`, candidate k of the
        loop that started from `start` with `next` ids issued: skips it when
        already bookmarked, missing, or left without a name, else appends it. */
    method TryPicked(folderPath: string, existing: set<string>, answer: Option<string>,
                     ghost paths: seq<string>, ghost names: seq<Option<string>>,
                     ghost k: nat, ghost start: seq<Tab>, ghost next: nat)
      returns (v: Verdict)
      requires k < |paths| && |names| == |paths| && paths[k] == folderPath
      requires names[k] == if folderPath in existing then answer else None
      requires tabs == AppendNew(start, paths, names, k, gen, next) && issued == next + |tabs| - |start|
      modifies this`tabs, this`issued
      ensures v == AddVerdict(old(tabs), folderPath, existing, answer)
      ensures tabs == AppendNew(start, paths, names, k + 1, gen, next) && issued == next + |tabs| - |start|
    {
      if PathIn(tabs, folderPath) {
        return AlreadyAdded;
      }
      if folderPath !in existing {
        return Missing;
      }
      if !Truthy(answer) {
        return Cancelled;
      }
      var id := GenId();
      tabs := tabs + [Tab(id, answer.value, folderPath)];
      v := Added;
    }

    /** `removeTab`: after confirmation, drops every tab with the item's id and
        clears the active id if it was that one. */
    method RemoveTab(item: Tab, confirmed: bool, folders: seq<Folder>)
      modifies this`tabs, this`activeTabId, this`saves, this`treeFires, this`tabFires
      ensures !confirmed ==>
        && tabs == old(tabs) && activeTabId == old(activeTabId)
        && saves == old(saves) && treeFires == old(treeFires) && tabFires == old(tabFires)
      ensures confirmed ==>
        && tabs == RemoveId(old(tabs), item.id)
        && activeTabId == DetectActive(tabs, ActiveAfterRemove(old(activeTabId), item.id), folders)
        && saves == old(saves) + [Snapshot(tabs, ActiveAfterRemove(old(activeTabId), item.id))]
                    + (if Detects(tabs, folders) then [Snapshot(tabs, activeTabId)] else [])
        && treeFires == old(treeFires) + 1 && tabFires == old(tabFires) + 2
      ensures old(IdsUnique()) ==> IdsUnique()
      ensures UniquePaths(old(tabs)) ==> UniquePaths(tabs)
    {
      if !confirmed {
        return;
      }
      tabs := RemoveId(tabs, item.id);
      if activeTabId == Some(item.id) {
        activeTabId := None;
      }
      Save();
      Refresh(folders);
      tabFires := tabFires + 1;
      RemoveIdKeepsUnique(old(tabs), item.id);
      if old(IdsUnique()) {
        RemoveIdStaysFresh(old(tabs), item.id, gen, issued);
      }
    }

    /** `renameTab`: a non-empty new name different from the item's renames the
        first tab with the item's id, if there still is one. */
    method RenameTab(item: Tab, answer: Option<string>, folders: seq<Folder>)
      modifies this`tabs, this`activeTabId, this`saves, this`treeFires, this`tabFires
      ensures !(RenameApplies(answer, item.name) && IdIn(old(tabs), item.id)) ==>
        && tabs == old(tabs) && activeTabId == old(activeTabId)
        && saves == old(saves) && treeFires == old(treeFires) && tabFires == old(tabFires)
      ensures RenameApplies(answer, item.name) && IdIn(old(tabs), item.id) ==>
        && tabs == Rename(old(tabs), item.id, answer.value)
        && activeTabId == DetectActive(tabs, old(activeTabId), folders)
        && saves == old(saves) + [Snapshot(tabs, old(activeTabId))]
                    + (if Detects(tabs, folders) then [Snapshot(tabs, activeTabId)] else [])
        && treeFires == old(treeFires) + 1 && tabFires == old(tabFires) + 2
      ensures old(IdsUnique()) ==> IdsUnique()
      ensures UniquePaths(old(tabs)) ==> UniquePaths(tabs)
    {
      if !Truthy(answer) || answer.value == item.name {
        return;
      }
      var newName := answer.value;
      var i := IndexOfId(tabs, item.id);
      if i < |tabs| {
        tabs := tabs[i := tabs[i].(name := newName)];
        Save();
        Refresh(folders);
        tabFires := tabFires + 1;
        RenameKeepsUnique(old(tabs), item.id, newName);
        if old(IdsUnique()) {
          RenameStaysFresh(old(tabs), item.id, newName, gen, issued);
        }
      }
    }
  }
}
