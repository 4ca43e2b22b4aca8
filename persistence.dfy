/** What `load` reads from the host's global state: the current bookmark list
    (whose records may lack fields), and the two legacy shapes it migrates from. */
module Persistence {
  import opened Wrappers
  import opened Paths
  import opened Bookmarks

  /** A record read back from the current list; any field may be missing or empty. */
  datatype StoredTab = StoredTab(id: Option<string>, name: Option<string>, path: Option<string>)

  /** A folder entry of both legacy shapes. */
  datatype LegacyFolder = LegacyFolder(name: Option<string>, path: string)

  /** An entry of the legacy multi-folder list, holding its folders under
      `folders` or, in an older shape, under `projects`. */
  datatype LegacyTab = LegacyTab(folders: Option<seq<LegacyFolder>>, projects: Option<seq<LegacyFolder>>)

  /** The keys of the global state that `load` reads; a missing key reads as its default. */
  datatype GlobalState = GlobalState(
    projectTabs: seq<StoredTab>,
    activeTabId: Option<string>,
    legacyTabs: seq<LegacyTab>,
    legacyProjects: seq<LegacyFolder>)

  /** How a tab is written back to the current list. */
  function Persist(tabs: seq<Tab>): (r: seq<StoredTab>)
    ensures |r| == |tabs|
  {
    seq(|tabs|, k requires 0 <= k < |tabs| => StoredTab(Some(tabs[k].id), Some(tabs[k].name), Some(tabs[k].path)))
  }

  // ---- The current list ------------------------------------------------

  /** Number of records without a usable id, i.e. generator calls made while restoring them. */
  function MissingIds(raw: seq<StoredTab>): (n: nat)
    ensures n <= |raw|
    decreases |raw|
  {
    if raw == [] then 0
    else MissingIds(raw[..|raw| - 1]) + (if Truthy(raw[|raw| - 1].id) then 0 else 1)
  }

  /** One stored record as a tab: the name is never empty, the path is empty
      only when the stored one was missing or empty, and a usable stored id is kept. */
  function RestoreOne(t: StoredTab, freshId: string): (r: Tab)
    ensures r.name != ""
    ensures r.path == "" <==> !Truthy(t.path)
    ensures Truthy(t.id) ==> r.id == t.id.value
    ensures r.id == "" ==> freshId == ""
  {
    Tab(OrElse(t.id, freshId), OrElse(t.name, "Unnamed"), OrElse(t.path, ""))
  }

  /** The `raw.map(...)` of `load`: record k keeps its fields, with defaults for
      missing ones; a record without an id takes the next generated one. */
  function Restore(raw: seq<StoredTab>, gen: IdSupply, next: nat): (r: seq<Tab>)
    ensures |r| == |raw|
  {
    seq(|raw|, k requires 0 <= k < |raw| => RestoreOne(raw[k], gen(next + MissingIds(raw[..k]))))
  }

  /** A record without an id makes the count of generator calls grow. */
  lemma {:induction false} MissingIdsGrows(raw: seq<StoredTab>, i: nat, j: nat)
    requires i < j <= |raw| && !Truthy(raw[i].id)
    ensures MissingIds(raw[..i]) < MissingIds(raw[..j])
    decreases j
  {
    assert raw[..j][..j - 1] == raw[..j - 1];
    if j == i + 1 {
      assert raw[..j][j - 1] == raw[i];
    } else {
      MissingIdsGrows(raw, i, j - 1);
    }
  }

  /** Every stored record becomes exactly one tab, in the same order, with
      'Unnamed' for a missing name and '' for a missing path. */
  lemma RestoreFields(raw: seq<StoredTab>, gen: IdSupply, next: nat, k: nat)
    requires k < |raw|
    ensures |Restore(raw, gen, next)| == |raw|
    ensures Truthy(raw[k].id) ==> Restore(raw, gen, next)[k].id == raw[k].id.value
    ensures Restore(raw, gen, next)[k].name == (if Truthy(raw[k].name) then raw[k].name.value else "Unnamed")
    ensures Restore(raw, gen, next)[k].path == (if Truthy(raw[k].path) then raw[k].path.value else "")
  {
  }

  /** The stored ids are distinct and none of them is ever returned by the generator. */
  ghost predicate StoredIdsDistinct(raw: seq<StoredTab>, gen: IdSupply) {
    && (forall i, j :: 0 <= i < j < |raw| && Truthy(raw[i].id) && Truthy(raw[j].id) ==> raw[i].id != raw[j].id)
    && (forall i, k: nat :: 0 <= i < |raw| && Truthy(raw[i].id) ==> raw[i].id.value != gen(k))
  }

  /** Restoring gives unique ids, none of which a later generator call returns,
      when the stored ids are distinct and the generator neither repeats itself
      nor collides with a stored id. */
  lemma RestoreIdsUnique(raw: seq<StoredTab>, gen: IdSupply, next: nat)
    requires Injective(gen) && StoredIdsDistinct(raw, gen)
    ensures UniqueIds(Restore(raw, gen, next))
    ensures FreshFrom(gen, next + MissingIds(raw), Restore(raw, gen, next))
  {
    var r := Restore(raw, gen, next);
    forall i, j | 0 <= i < j < |r| ensures r[i].id != r[j].id {
      if !Truthy(raw[i].id) && !Truthy(raw[j].id) {
        MissingIdsGrows(raw, i, j);
      }
    }
    forall k: nat, i | next + MissingIds(raw) <= k && 0 <= i < |r| ensures r[i].id != gen(k) {
      if !Truthy(raw[i].id) {
        assert raw[..|raw|] == raw;
        MissingIdsGrows(raw, i, |raw|);
      }
    }
  }

  /** Loading what was saved gives the same list back exactly when every name
      is non-empty (an empty name comes back as 'Unnamed'); ids never come back
      empty from the generator, so they are assumed non-empty. */
  lemma ReloadRoundTrip(tabs: seq<Tab>, gen: IdSupply, next: nat)
    requires forall k :: 0 <= k < |tabs| ==> tabs[k].id != ""
    ensures Restore(Persist(tabs), gen, next) == tabs <==> forall k :: 0 <= k < |tabs| ==> tabs[k].name != ""
  {
    var r := Restore(Persist(tabs), gen, next);
    if forall k :: 0 <= k < |tabs| ==> tabs[k].name != "" {
      assert forall k :: 0 <= k < |tabs| ==> r[k] == tabs[k];
    } else {
      var k :| 0 <= k < |tabs| && tabs[k].name == "";
      assert r[k].name == "Unnamed";
    }
  }

  // ---- Legacy migration -------------------------------------------------

  /** `tab.folders || tab.projects || []`: a present list, even an empty one, wins. */
  function FoldersOf(t: LegacyTab): (r: seq<LegacyFolder>)
    ensures t.folders.Some? ==> r == t.folders.value
    ensures t.folders.None? && t.projects.Some? ==> r == t.projects.value
    ensures r != [] ==> t.folders.Some? || t.projects.Some?
  {
    if t.folders.Some? then t.folders.value
    else if t.projects.Some? then t.projects.value
    else []
  }

  /** The folders of all legacy multi-folder entries, in order. */
  function Flatten(oldTabs: seq<LegacyTab>): seq<LegacyFolder>
    decreases |oldTabs|
  {
    if oldTabs == [] then []
    else Flatten(oldTabs[..|oldTabs| - 1]) + FoldersOf(oldTabs[|oldTabs| - 1])
  }

  /** The flattened list is empty exactly when every legacy entry yields no folder. */
  lemma {:induction false} FlattenEmpty(oldTabs: seq<LegacyTab>)
    ensures Flatten(oldTabs) == [] <==> forall i :: 0 <= i < |oldTabs| ==> FoldersOf(oldTabs[i]) == []
    decreases |oldTabs|
  {
    if oldTabs != [] {
      var init := oldTabs[..|oldTabs| - 1];
      FlattenEmpty(init);
      assert forall i :: 0 <= i < |init| ==> init[i] == oldTabs[i];
    }
  }

  /** Flattening distributes over concatenation, so each legacy entry
      contributes its folders as one contiguous run, in order. */
  lemma {:induction false} FlattenConcat(a: seq<LegacyTab>, b: seq<LegacyTab>)
    ensures Flatten(a + b) == Flatten(a) + Flatten(b)
    decreases |b|
  {
    if b == [] {
      assert a + b == a;
    } else {
      var n := |b| - 1;
      assert (a + b)[..|a + b| - 1] == a + b[..n];
      assert (a + b)[|a + b| - 1] == b[n];
      FlattenConcat(a, b[..n]);
    }
  }

  /** The legacy folders migration turns into tabs: the multi-folder list
      whenever it is non-empty, otherwise the flat project list. */
  function MigrationSource(oldTabs: seq<LegacyTab>, oldProjects: seq<LegacyFolder>): seq<LegacyFolder> {
    if |oldTabs| > 0 then Flatten(oldTabs) else oldProjects
  }

  /** One legacy folder as a tab: its name, else the last segment of its path. */
  function MigrateOne(f: LegacyFolder, id: string): (r: Tab)
    ensures r.id == id && r.path == f.path
    ensures r.name == "" <==> !Truthy(f.name) && BaseName(f.path) == ""
    ensures !Truthy(f.name) ==> '/' !in r.name
  {
    Tab(id, OrElse(f.name, BaseName(f.path)), f.path)
  }

  /** Folder k migrates to tab k: the k-th generated id, the folder's path,
      and its own name when present, else the last segment of its path. */
  lemma MigratedFields(entries: seq<LegacyFolder>, gen: IdSupply, next: nat, k: nat)
    requires k < |entries|
    ensures |Migrated(entries, gen, next)| == |entries|
    ensures Migrated(entries, gen, next)[k].id == gen(next + k)
    ensures Migrated(entries, gen, next)[k].path == entries[k].path
    ensures Migrated(entries, gen, next)[k].name ==
            (if Truthy(entries[k].name) then entries[k].name.value else BaseName(entries[k].path))
  {
  }

  /** The tabs pushed by the migration loops, the k-th with the k-th generated id. */
  function Migrated(entries: seq<LegacyFolder>, gen: IdSupply, next: nat): (r: seq<Tab>)
    ensures |r| == |entries|
  {
    seq(|entries|, k requires 0 <= k < |entries| => MigrateOne(entries[k], gen(next + k)))
  }

  /** Pushing one more migrated folder extends the migrated list by its tab. */
  lemma MigratedSnoc(entries: seq<LegacyFolder>, f: LegacyFolder, gen: IdSupply, next: nat)
    ensures Migrated(entries + [f], gen, next) == Migrated(entries, gen, next) + [MigrateOne(f, gen(next + |entries|))]
  {
    var longer := Migrated(entries + [f], gen, next);
    var pushed := Migrated(entries, gen, next) + [MigrateOne(f, gen(next + |entries|))];
    assert |longer| == |pushed|;
    forall k | 0 <= k < |longer| ensures longer[k] == pushed[k] {
      if k < |entries| {
        assert (entries + [f])[k] == entries[k];
      } else {
        assert (entries + [f])[k] == f;
      }
    }
  }

  /** Migrated tabs have distinct ids, none of which a later generator call
      returns, when the generator does not repeat itself. */
  lemma MigratedIdsUnique(entries: seq<LegacyFolder>, gen: IdSupply, next: nat)
    requires Injective(gen)
    ensures UniqueIds(Migrated(entries, gen, next))
    ensures FreshFrom(gen, next + |entries|, Migrated(entries, gen, next))
  {
  }

  // ---- The whole of load ------------------------------------------------

  /** The tab list `load` leaves behind. */
  function LoadedTabs(st: GlobalState, gen: IdSupply, next: nat): (r: seq<Tab>)
    ensures |st.projectTabs| > 0 ==> |r| == |st.projectTabs|
  {
    if |st.projectTabs| > 0 then Restore(st.projectTabs, gen, next)
    else Migrated(MigrationSource(st.legacyTabs, st.legacyProjects), gen, next)
  }

  /** How many ids `load` asks the generator for. */
  function IdsUsedByLoad(st: GlobalState): nat {
    if |st.projectTabs| > 0 then MissingIds(st.projectTabs)
    else |MigrationSource(st.legacyTabs, st.legacyProjects)|
  }

  /** Whether `load` saves: only when it migrated and the migration produced a tab. */
  predicate LoadSaves(st: GlobalState) {
    |st.projectTabs| == 0 && |MigrationSource(st.legacyTabs, st.legacyProjects)| > 0
  }

  /** A non-empty current list is taken as it is: migration does not run and nothing is saved. */
  lemma CurrentListSkipsMigration(st: GlobalState, gen: IdSupply, next: nat)
    requires |st.projectTabs| > 0
    ensures LoadedTabs(st, gen, next) == Restore(st.projectTabs, gen, next)
    ensures !LoadSaves(st)
  {
  }

  /** `load` saves exactly when it migrated and the migration produced a tab. */
  lemma LoadSavesOnlyAfterMigration(st: GlobalState, gen: IdSupply, next: nat)
    ensures LoadSaves(st) <==> |st.projectTabs| == 0 && |LoadedTabs(st, gen, next)| > 0
  {
  }

  /** A non-empty legacy multi-folder list takes precedence: the flat project
      list then has no effect on what `load` loads, saves or generates. */
  lemma LegacyTabsTakePrecedence(st: GlobalState, projects: seq<LegacyFolder>, gen: IdSupply, next: nat)
    requires |st.legacyTabs| > 0
    ensures var st' := st.(legacyProjects := projects);
            && LoadedTabs(st', gen, next) == LoadedTabs(st, gen, next)
            && LoadSaves(st') == LoadSaves(st)
            && IdsUsedByLoad(st') == IdsUsedByLoad(st)
  {
  }

  /** Precedence is decided by whether the legacy multi-folder list is non-empty,
      not by whether it yields a folder: when every entry's folder list is
      empty, the flat project list is hidden, nothing is loaded and nothing is saved. */
  lemma LegacyTabsShadowProjects(st: GlobalState, gen: IdSupply, next: nat)
    requires st.projectTabs == [] && |st.legacyTabs| > 0
    requires forall i :: 0 <= i < |st.legacyTabs| ==> FoldersOf(st.legacyTabs[i]) == []
    ensures LoadedTabs(st, gen, next) == [] && !LoadSaves(st)
  {
    FlattenEmpty(st.legacyTabs);
  }

  /** One legacy entry with folders a and b and no current list loads exactly
      two tabs, for a then b, and saves them. */
  lemma MigrationScenario(a: LegacyFolder, b: LegacyFolder, projects: seq<LegacyFolder>, gen: IdSupply, next: nat)
    ensures var st := GlobalState([], None, [LegacyTab(Some([a, b]), None)], projects);
            LoadedTabs(st, gen, next) == [MigrateOne(a, gen(next)), MigrateOne(b, gen(next + 1))] && LoadSaves(st)
  {
    var st := GlobalState([], None, [LegacyTab(Some([a, b]), None)], projects);
    assert [LegacyTab(Some([a, b]), None)][..0] == [];
    assert Flatten(st.legacyTabs) == [a, b];
    assert MigrationSource(st.legacyTabs, st.legacyProjects) == [a, b];
    var r := Migrated([a, b], gen, next);
    assert r[0] == MigrateOne(a, gen(next));
    assert r[1] == MigrateOne(b, gen(next + 1));
    assert r == [MigrateOne(a, gen(next)), MigrateOne(b, gen(next + 1))];
  }

  /** Migration runs at most once: once its tabs are saved, the next load takes
      the saved list unchanged, migrates nothing and saves nothing. */
  lemma MigrateThenReload(st: GlobalState, gen: IdSupply, next: nat, later: nat)
    requires LoadSaves(st)
    requires forall k: nat :: gen(k) != ""
    requires forall f :: f in MigrationSource(st.legacyTabs, st.legacyProjects) ==> Truthy(f.name) || BaseName(f.path) != ""
    ensures var first := LoadedTabs(st, gen, next);
            var st' := st.(projectTabs := Persist(first));
            LoadedTabs(st', gen, later) == first && !LoadSaves(st')
  {
    var entries := MigrationSource(st.legacyTabs, st.legacyProjects);
    var first := LoadedTabs(st, gen, next);
    assert first == Migrated(entries, gen, next);
    assert |first| == |entries| > 0;
    forall k | 0 <= k < |first| ensures first[k].id != "" && first[k].name != "" {
      assert first[k] == MigrateOne(entries[k], gen(next + k));
      assert entries[k] in entries;
    }
    var st' := st.(projectTabs := Persist(first));
    assert |st'.projectTabs| > 0;
    assert LoadedTabs(st', gen, later) == Restore(Persist(first), gen, later);
    ReloadRoundTrip(first, gen, later);
  }

  /** After `load`, ids are unique and the generator's later ids are fresh,
      provided the stored ids are distinct and the generator never repeats
      itself or returns a stored id. */
  lemma LoadIdsUnique(st: GlobalState, gen: IdSupply, next: nat)
    requires Injective(gen) && StoredIdsDistinct(st.projectTabs, gen)
    ensures UniqueIds(LoadedTabs(st, gen, next))
    ensures FreshFrom(gen, next + IdsUsedByLoad(st), LoadedTabs(st, gen, next))
  {
    if |st.projectTabs| > 0 {
      RestoreIdsUnique(st.projectTabs, gen, next);
    } else {
      MigratedIdsUnique(MigrationSource(st.legacyTabs, st.legacyProjects), gen, next);
    }
  }
}
