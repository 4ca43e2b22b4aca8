/** The state transitions of the bookmark store as functions of the tab list,
    the active id and the host's answers; the store's methods are proved to
    follow them, and the lemmas here state what they promise. */
module Operations {
  import opened Wrappers
  import opened Bookmarks

  // ---- Active detection ---------------------------------------------------

  /** Whether `detectActiveTab` finds a tab (and then saves). */
  predicate Detects(tabs: seq<Tab>, folders: seq<Folder>) {
    |folders| == 1 && PathIn(tabs, folders[0].path)
  }

  /** `detectActiveTab`: with exactly one open folder that some tab bookmarks,
      the first such tab becomes active; otherwise the active id is kept. */
  function DetectActive(tabs: seq<Tab>, active: Option<string>, folders: seq<Folder>): (r: Option<string>)
    ensures Detects(tabs, folders) ==>
              exists i :: 0 <= i < |tabs| && tabs[i].path == folders[0].path && r == Some(tabs[i].id)
    ensures !Detects(tabs, folders) ==> r == active
  {
    if Detects(tabs, folders)
    then Some(tabs[IndexOfPath(tabs, folders[0].path)].id)
    else active
  }

  /** Detection picks the first tab bookmarking the one open folder, whatever
      was active before; duplicates after it are ignored. */
  lemma DetectActiveFindsBookmark(tabs: seq<Tab>, active: Option<string>, folder: Folder, i: nat)
    requires i < |tabs| && tabs[i].path == folder.path
    requires forall j :: 0 <= j < i ==> tabs[j].path != folder.path
    ensures DetectActive(tabs, active, [folder]) == Some(tabs[i].id)
  {
  }

  /** With no open folder, several, or an open folder no tab bookmarks, the active id is kept. */
  lemma DetectActiveKeeps(tabs: seq<Tab>, active: Option<string>, folders: seq<Folder>)
    requires |folders| != 1 || !PathIn(tabs, folders[0].path)
    ensures DetectActive(tabs, active, folders) == active
  {
  }

  /** Running detection twice is the same as running it once. */
  lemma DetectActiveIdempotent(tabs: seq<Tab>, active: Option<string>, folders: seq<Folder>)
    ensures DetectActive(tabs, DetectActive(tabs, active, folders), folders) == DetectActive(tabs, active, folders)
  {
  }

  // ---- Appending new bookmarks (addTab and saveCurrentAsTab) --------------

  /** Whether the loop appends a bookmark for `p`: the path is not bookmarked
      yet and a non-empty name was given. */
  predicate Appends(tabs: seq<Tab>, p: string, name: Option<string>) {
    !PathIn(tabs, p) && Truthy(name)
  }

  /** The append loop shared by `addTab` and `saveCurrentAsTab` after its
      first `n` candidates: candidate k has path `paths[k]` and the name
      `names[k]` (None when no usable name was obtained); each appended tab
      takes the next generated id. */
  function AppendNew(tabs: seq<Tab>, paths: seq<string>, names: seq<Option<string>>, n: nat, gen: IdSupply, next: nat): (r: seq<Tab>)
    requires n <= |paths| && |names| == |paths|
    ensures |tabs| <= |r| <= |tabs| + n
    decreases n
  {
    if n == 0 then tabs
    else
      var prev := AppendNew(tabs, paths, names, n - 1, gen, next);
      if Appends(prev, paths[n - 1], names[n - 1])
      then prev + [Tab(gen(next + |prev| - |tabs|), names[n - 1].value, paths[n - 1])]
      else prev
  }

  /** The loop only appends: the tabs it started from are left as they were. */
  lemma {:induction false} AppendNewPrefix(tabs: seq<Tab>, paths: seq<string>, names: seq<Option<string>>, n: nat, gen: IdSupply, next: nat)
    requires n <= |paths| && |names| == |paths|
    ensures AppendNew(tabs, paths, names, n, gen, next)[..|tabs|] == tabs
    decreases n
  {
    if n > 0 {
      AppendNewPrefix(tabs, paths, names, n - 1, gen, next);
      var prev := AppendNew(tabs, paths, names, n - 1, gen, next);
      var r := AppendNew(tabs, paths, names, n, gen, next);
      assert r[..|prev|] == prev;
      assert r[..|tabs|] == prev[..|tabs|];
    }
  }

  /** Candidate k is taken: it has a name, its path was not bookmarked, and
      no earlier candidate with the same path had a name. */
  predicate Taken(tabs: seq<Tab>, paths: seq<string>, names: seq<Option<string>>, k: nat)
    requires k < |paths| && |names| == |paths|
  {
    && Truthy(names[k])
    && !PathIn(tabs, paths[k])
    && forall j :: 0 <= j < k && paths[j] == paths[k] ==> !Truthy(names[j])
  }

  /** A path is bookmarked after the loop iff it was before or some candidate
      with that path had a name. */
  lemma {:induction false} AppendNewPaths(tabs: seq<Tab>, paths: seq<string>, names: seq<Option<string>>, n: nat, gen: IdSupply, next: nat, p: string)
    requires n <= |paths| && |names| == |paths|
    ensures PathIn(AppendNew(tabs, paths, names, n, gen, next), p)
            <==> PathIn(tabs, p) || exists j :: 0 <= j < n && paths[j] == p && Truthy(names[j])
    decreases n
  {
    if n > 0 {
      var prev := AppendNew(tabs, paths, names, n - 1, gen, next);
      var r := AppendNew(tabs, paths, names, n, gen, next);
      AppendNewPaths(tabs, paths, names, n - 1, gen, next, p);
      if PathIn(r, p) && !PathIn(prev, p) {
        var i :| 0 <= i < |r| && r[i].path == p;
        assert i == |prev|;
      }
      if PathIn(prev, p) {
        var i :| 0 <= i < |prev| && prev[i].path == p;
        assert r[i] == prev[i];
      }
      if paths[n - 1] == p && Truthy(names[n - 1]) {
        if !PathIn(prev, p) {
          assert r[|prev|].path == p;
        }
      }
    }
  }

  /** Step k of the loop appends exactly when candidate k is taken, in the
      closed form of Taken, so the appended tabs are the taken candidates in
      candidate order. */
  lemma AppendNewStep(tabs: seq<Tab>, paths: seq<string>, names: seq<Option<string>>, k: nat, gen: IdSupply, next: nat)
    requires k < |paths| && |names| == |paths|
    ensures var prev := AppendNew(tabs, paths, names, k, gen, next);
            AppendNew(tabs, paths, names, k + 1, gen, next)
            == if Taken(tabs, paths, names, k)
               then prev + [Tab(gen(next + |prev| - |tabs|), names[k].value, paths[k])]
               else prev
  {
    AppendNewPaths(tabs, paths, names, k, gen, next, paths[k]);
  }

  /** No tab after the first |tabs| repeats the path of any tab before it. */
  predicate NoNewDuplicate(tabs: seq<Tab>, r: seq<Tab>) {
    forall i, j :: 0 <= i < j < |r| && |tabs| <= j ==> r[i].path != r[j].path
  }

  /** No appended tab repeats the path of any tab before it. */
  lemma {:induction false} AppendNewNoDuplicate(tabs: seq<Tab>, paths: seq<string>, names: seq<Option<string>>, n: nat, gen: IdSupply, next: nat)
    requires n <= |paths| && |names| == |paths|
    ensures NoNewDuplicate(tabs, AppendNew(tabs, paths, names, n, gen, next))
    decreases n
  {
    if n > 0 {
      var prev := AppendNew(tabs, paths, names, n - 1, gen, next);
      var r := AppendNew(tabs, paths, names, n, gen, next);
      AppendNewNoDuplicate(tabs, paths, names, n - 1, gen, next);
      forall i, j | 0 <= i < j < |r| && |tabs| <= j ensures r[i].path != r[j].path {
        if j < |prev| {
          assert r[i] == prev[i] && r[j] == prev[j];
        } else {
          assert r[i] == prev[i] && !PathIn(prev, paths[n - 1]);
        }
      }
    }
  }

  /** Appending keeps paths unique. */
  lemma AppendNewUniquePaths(tabs: seq<Tab>, paths: seq<string>, names: seq<Option<string>>, n: nat, gen: IdSupply, next: nat)
    requires n <= |paths| && |names| == |paths|
    requires UniquePaths(tabs)
    ensures UniquePaths(AppendNew(tabs, paths, names, n, gen, next))
  {
    var r := AppendNew(tabs, paths, names, n, gen, next);
    AppendNewNoDuplicate(tabs, paths, names, n, gen, next);
    AppendNewPrefix(tabs, paths, names, n, gen, next);
    forall i, j | 0 <= i < j < |r| ensures r[i].path != r[j].path {
      if j < |tabs| {
        assert r[i] == tabs[i] && r[j] == tabs[j];
      }
    }
  }

  /** Every tab after the first |tabs| has a generated id, in call order, and
      the non-empty name and the path of one of the first n candidates. */
  predicate AppendedFrom(tabs: seq<Tab>, r: seq<Tab>, paths: seq<string>, names: seq<Option<string>>, n: nat, gen: IdSupply, next: nat)
    requires n <= |paths| && |names| == |paths|
  {
    forall j :: |tabs| <= j < |r| ==>
      && r[j].id == gen(next + j - |tabs|)
      && r[j].name != ""
      && exists k :: 0 <= k < n && paths[k] == r[j].path && names[k] == Some(r[j].name)
  }

  /** Every appended tab has a generated id, in call order, and the non-empty
      name and path of one of the candidates. */
  lemma {:induction false} AppendNewAppended(tabs: seq<Tab>, paths: seq<string>, names: seq<Option<string>>, n: nat, gen: IdSupply, next: nat)
    requires n <= |paths| && |names| == |paths|
    ensures AppendedFrom(tabs, AppendNew(tabs, paths, names, n, gen, next), paths, names, n, gen, next)
    decreases n
  {
    if n > 0 {
      var prev := AppendNew(tabs, paths, names, n - 1, gen, next);
      var r := AppendNew(tabs, paths, names, n, gen, next);
      AppendNewAppended(tabs, paths, names, n - 1, gen, next);
      forall j | |tabs| <= j < |r|
        ensures r[j].id == gen(next + j - |tabs|) && r[j].name != ""
        ensures exists k :: 0 <= k < n && paths[k] == r[j].path && names[k] == Some(r[j].name)
      {
        if j < |prev| {
          assert r[j] == prev[j];
          var k :| 0 <= k < n - 1 && paths[k] == prev[j].path && names[k] == Some(prev[j].name);
        } else {
          assert paths[n - 1] == r[j].path && names[n - 1] == Some(r[j].name);
        }
      }
    }
  }

  /** Ids stay unique when the generator neither repeats itself nor returns an id already in use. */
  lemma AppendNewUniqueIds(tabs: seq<Tab>, paths: seq<string>, names: seq<Option<string>>, n: nat, gen: IdSupply, next: nat)
    requires n <= |paths| && |names| == |paths|
    requires UniqueIds(tabs) && Injective(gen) && FreshFrom(gen, next, tabs)
    ensures UniqueIds(AppendNew(tabs, paths, names, n, gen, next))
  {
    var r := AppendNew(tabs, paths, names, n, gen, next);
    AppendNewAppended(tabs, paths, names, n, gen, next);
    AppendNewPrefix(tabs, paths, names, n, gen, next);
    forall i, j | 0 <= i < j < |r| ensures r[i].id != r[j].id {
      if j < |tabs| {
        assert r[i] == tabs[i] && r[j] == tabs[j];
      } else if i < |tabs| {
        assert r[i] == tabs[i];
        assert !IdIn(tabs, gen(next + j - |tabs|));
      }
    }
  }

  /** The generator's later ids stay fresh: every appended id came from a call
      before the new count. */
  lemma AppendNewStaysFresh(tabs: seq<Tab>, paths: seq<string>, names: seq<Option<string>>, n: nat, gen: IdSupply, next: nat)
    requires n <= |paths| && |names| == |paths|
    requires Injective(gen) && FreshFrom(gen, next, tabs)
    ensures var r := AppendNew(tabs, paths, names, n, gen, next);
            FreshFrom(gen, next + |r| - |tabs|, r)
  {
    var r := AppendNew(tabs, paths, names, n, gen, next);
    AppendNewAppended(tabs, paths, names, n, gen, next);
    AppendNewPrefix(tabs, paths, names, n, gen, next);
    forall k: nat, i | next + |r| - |tabs| <= k && 0 <= i < |r| ensures r[i].id != gen(k) {
      if i < |tabs| {
        assert r[i] == tabs[i];
        assert !IdIn(tabs, gen(k));
      }
    }
  }

  /** Appending keeps ids unique and later generator ids fresh, and keeps paths unique. */
  lemma AppendNewKeepsUnique(tabs: seq<Tab>, paths: seq<string>, names: seq<Option<string>>, n: nat, gen: IdSupply, next: nat)
    requires n <= |paths| && |names| == |paths|
    ensures var r := AppendNew(tabs, paths, names, n, gen, next);
            UniqueIds(tabs) && Injective(gen) && FreshFrom(gen, next, tabs) ==>
              UniqueIds(r) && FreshFrom(gen, next + |r| - |tabs|, r)
    ensures UniquePaths(tabs) ==> UniquePaths(AppendNew(tabs, paths, names, n, gen, next))
  {
    if UniqueIds(tabs) && Injective(gen) && FreshFrom(gen, next, tabs) {
      AppendNewUniqueIds(tabs, paths, names, n, gen, next);
      AppendNewStaysFresh(tabs, paths, names, n, gen, next);
    }
    if UniquePaths(tabs) {
      AppendNewUniquePaths(tabs, paths, names, n, gen, next);
    }
  }

  // ---- addTab ------------------------------------------------------------

  /** What `addTab` reports for a candidate folder, in the order it checks. */
  datatype Verdict = AlreadyAdded | Missing | Cancelled | Added

  /** The report for one candidate: it is added exactly when the append loop
      appends it under the name it was given (none for a missing folder). */
  function AddVerdict(tabs: seq<Tab>, p: string, existing: set<string>, answer: Option<string>): (r: Verdict)
    ensures r == AlreadyAdded <==> PathIn(tabs, p)
    ensures r == Missing <==> !PathIn(tabs, p) && p !in existing
    ensures r == Cancelled <==> !PathIn(tabs, p) && p in existing && !Truthy(answer)
    ensures r == Added <==> Appends(tabs, p, if p in existing then answer else None)
  {
    if PathIn(tabs, p) then AlreadyAdded
    else if p !in existing then Missing
    else if !Truthy(answer) then Cancelled
    else Added
  }

  /** The usable name of each picked folder: none for a folder that does not exist. */
  function AddNames(cands: seq<string>, existing: set<string>, answers: seq<Option<string>>): (r: seq<Option<string>>)
    requires |answers| == |cands|
    ensures |r| == |cands|
  {
    seq(|cands|, k requires 0 <= k < |cands| => if cands[k] in existing then answers[k] else None)
  }

  /** What `addTab` reports for each of its first n candidates. */
  function AddVerdicts(tabs: seq<Tab>, cands: seq<string>, existing: set<string>, answers: seq<Option<string>>, n: nat, gen: IdSupply, next: nat): (r: seq<Verdict>)
    requires n <= |cands| && |answers| == |cands|
    ensures |r| == n
    decreases n
  {
    if n == 0 then []
    else
      AddVerdicts(tabs, cands, existing, answers, n - 1, gen, next)
      + [AddVerdict(AppendNew(tabs, cands, AddNames(cands, existing, answers), n - 1, gen, next), cands[n - 1], existing, answers[n - 1])]
  }

  /** The report for candidate k is the verdict against the list as it was when k was tried. */
  lemma {:induction false} AddVerdictsAt(tabs: seq<Tab>, cands: seq<string>, existing: set<string>, answers: seq<Option<string>>, n: nat, k: nat, gen: IdSupply, next: nat)
    requires k < n <= |cands| && |answers| == |cands|
    ensures AddVerdicts(tabs, cands, existing, answers, n, gen, next)[k]
            == AddVerdict(AppendNew(tabs, cands, AddNames(cands, existing, answers), k, gen, next), cands[k], existing, answers[k])
    decreases n
  {
    if k < n - 1 {
      AddVerdictsAt(tabs, cands, existing, answers, n - 1, k, gen, next);
    }
  }

  /** Candidate k of `addTab` is added iff it exists, was given a name, is not
      bookmarked already, and no earlier pick of the same folder was given a
      name; it is reported as already added iff it was bookmarked before or
      an earlier pick of it was added. */
  lemma AddVerdictSpec(tabs: seq<Tab>, cands: seq<string>, existing: set<string>, answers: seq<Option<string>>, k: nat, gen: IdSupply, next: nat)
    requires |answers| == |cands| && k < |cands|
    ensures var v := AddVerdicts(tabs, cands, existing, answers, |cands|, gen, next)[k];
            && (v == Added <==>
                  && cands[k] in existing && Truthy(answers[k]) && !PathIn(tabs, cands[k])
                  && forall j :: 0 <= j < k && cands[j] == cands[k] ==> !Truthy(answers[j]))
            && (v == AlreadyAdded <==>
                  PathIn(tabs, cands[k])
                  || exists j :: 0 <= j < k && cands[j] == cands[k] && cands[k] in existing && Truthy(answers[j]))
  {
    var names := AddNames(cands, existing, answers);
    AddVerdictsAt(tabs, cands, existing, answers, |cands|, k, gen, next);
    AppendNewPaths(tabs, cands, names, k, gen, next, cands[k]);
  }

  // ---- saveCurrentAsTab ----------------------------------------------------

  /** The path of each open folder. */
  function FolderPaths(folders: seq<Folder>): (r: seq<string>)
    ensures |r| == |folders|
    ensures forall k :: 0 <= k < |folders| ==> r[k] == folders[k].path
    decreases |folders|
  {
    if folders == [] then []
    else FolderPaths(folders[..|folders| - 1]) + [folders[|folders| - 1].path]
  }

  /** The name `saveCurrentAsTab` uses for each open folder: the prompt's
      answer when exactly one folder is open, else the folder's own name. */
  function SaveNames(folders: seq<Folder>, prompt: Option<string>): (r: seq<Option<string>>)
    ensures |r| == |folders|
    ensures forall k :: 0 <= k < |folders| ==> r[k] == if |folders| == 1 then prompt else Some(folders[k].name)
  {
    if |folders| == 1 then [prompt] else FolderNames(folders)
  }

  /** The display name of each open folder. */
  function FolderNames(folders: seq<Folder>): (r: seq<Option<string>>)
    ensures |r| == |folders|
    ensures forall k :: 0 <= k < |folders| ==> r[k] == Some(folders[k].name)
    decreases |folders|
  {
    if folders == [] then []
    else FolderNames(folders[..|folders| - 1]) + [Some(folders[|folders| - 1].name)]
  }

  /** The tab list after the loop of `saveCurrentAsTab`. */
  function SavedTabs(tabs: seq<Tab>, folders: seq<Folder>, prompt: Option<string>, gen: IdSupply, next: nat): (r: seq<Tab>)
    ensures |tabs| <= |r| <= |tabs| + |folders|
  {
    AppendNew(tabs, FolderPaths(folders), SaveNames(folders, prompt), |folders|, gen, next)
  }

  /** After the loop, a path is bookmarked iff it was before or some open
      folder with that path got a non-empty name. */
  lemma SavedTabsPaths(tabs: seq<Tab>, folders: seq<Folder>, prompt: Option<string>, gen: IdSupply, next: nat, p: string)
    ensures PathIn(SavedTabs(tabs, folders, prompt, gen, next), p)
            <==> PathIn(tabs, p) || exists j :: 0 <= j < |folders| && folders[j].path == p && Truthy(SaveNames(folders, prompt)[j])
  {
    AppendNewPaths(tabs, FolderPaths(folders), SaveNames(folders, prompt), |folders|, gen, next, p);
  }

  /** The active id set after the loop: the tab bookmarking the first open folder, if any. */
  function ActiveAfterSave(tabs: seq<Tab>, folders: seq<Folder>, active: Option<string>): (r: Option<string>)
    requires |folders| > 0
    ensures PathIn(tabs, folders[0].path) ==>
              exists i :: 0 <= i < |tabs| && tabs[i].path == folders[0].path && r == Some(tabs[i].id)
    ensures !PathIn(tabs, folders[0].path) ==> r == active
  {
    var i := IndexOfPath(tabs, folders[0].path);
    if i < |tabs| then Some(tabs[i].id) else active
  }

  /** The active id after saving is the first tab bookmarking the first open
      folder, as `find` returns it, even when later tabs share the path. */
  lemma ActiveAfterSaveFirstMatch(tabs: seq<Tab>, folders: seq<Folder>, active: Option<string>, i: nat)
    requires |folders| > 0 && i < |tabs| && tabs[i].path == folders[0].path
    requires forall j :: 0 <= j < i ==> tabs[j].path != folders[0].path
    ensures ActiveAfterSave(tabs, folders, active) == Some(tabs[i].id)
  {
  }

  /** The refresh that ends `saveCurrentAsTab` does not change the active id it chose. */
  lemma SaveThenRefreshStable(tabs: seq<Tab>, folders: seq<Folder>, active: Option<string>)
    requires |folders| > 0
    ensures DetectActive(tabs, ActiveAfterSave(tabs, folders, active), folders) == ActiveAfterSave(tabs, folders, active)
  {
  }

  /** Two open folders, neither bookmarked, both with non-empty names: two
      tabs are appended in folder order and the first becomes active. */
  lemma SaveTwoFolders(tabs: seq<Tab>, f0: Folder, f1: Folder, prompt: Option<string>, active: Option<string>, gen: IdSupply, next: nat)
    requires f0.path != f1.path && !PathIn(tabs, f0.path) && !PathIn(tabs, f1.path)
    requires f0.name != "" && f1.name != ""
    ensures var r := SavedTabs(tabs, [f0, f1], prompt, gen, next);
            && r == tabs + [Tab(gen(next), f0.name, f0.path), Tab(gen(next + 1), f1.name, f1.path)]
            && ActiveAfterSave(r, [f0, f1], active) == Some(gen(next))
  {
    var paths, names := FolderPaths([f0, f1]), SaveNames([f0, f1], prompt);
    var r1 := AppendNew(tabs, paths, names, 1, gen, next);
    assert r1 == tabs + [Tab(gen(next), f0.name, f0.path)];
    assert !PathIn(r1, f1.path) by {
      forall i | 0 <= i < |r1| ensures r1[i].path != f1.path {
        if i < |tabs| { assert r1[i] == tabs[i]; }
      }
    }
    var r := SavedTabs(tabs, [f0, f1], prompt, gen, next);
    assert r == r1 + [Tab(gen(next + 1), f1.name, f1.path)];
    assert r[|tabs|].path == f0.path;
    assert forall j :: 0 <= j < |tabs| ==> r[j] == tabs[j] && tabs[j].path != f0.path;
    assert IndexOfPath(r, f0.path) == |tabs|;
  }

  // ---- removeTab ------------------------------------------------------------

  /** `tabs.filter(t => t.id !== id)` */
  function RemoveId(tabs: seq<Tab>, id: string): (r: seq<Tab>)
    ensures |r| <= |tabs|
    decreases |tabs|
  {
    if tabs == [] then []
    else (if tabs[0].id == id then [] else [tabs[0]]) + RemoveId(tabs[1..], id)
  }

  /** The filter keeps exactly the tabs whose id differs from `id`. */
  lemma {:induction false} RemoveIdMembers(tabs: seq<Tab>, id: string)
    ensures forall t :: t in RemoveId(tabs, id) <==> t in tabs && t.id != id
    decreases |tabs|
  {
    if tabs != [] {
      RemoveIdMembers(tabs[1..], id);
      assert tabs == [tabs[0]] + tabs[1..];
    }
  }

  /** Removing distributes over concatenation: the kept tabs keep their relative order. */
  lemma {:induction false} RemoveIdConcat(a: seq<Tab>, b: seq<Tab>, id: string)
    ensures RemoveId(a + b, id) == RemoveId(a, id) + RemoveId(b, id)
    decreases |a|
  {
    if a != [] {
      assert (a + b)[0] == a[0];
      assert (a + b)[1..] == a[1..] + b;
      RemoveIdConcat(a[1..], b, id);
    } else {
      assert a + b == b;
    }
  }

  /** Removing an id no tab has changes nothing. */
  lemma {:induction false} RemoveIdAbsent(tabs: seq<Tab>, id: string)
    requires !IdIn(tabs, id)
    ensures RemoveId(tabs, id) == tabs
    decreases |tabs|
  {
    if tabs != [] {
      assert !IdIn(tabs[1..], id) by {
        forall i | 0 <= i < |tabs| - 1 ensures tabs[1..][i].id != id {
          assert tabs[1..][i] == tabs[i + 1];
        }
      }
      RemoveIdAbsent(tabs[1..], id);
    }
  }

  /** With unique ids, removing the id of tab i drops exactly that tab. */
  lemma RemoveIdAt(tabs: seq<Tab>, i: nat)
    requires UniqueIds(tabs) && i < |tabs|
    ensures RemoveId(tabs, tabs[i].id) == tabs[..i] + tabs[i + 1..]
  {
    var a, b := tabs[..i], tabs[i + 1..];
    assert tabs == a + [tabs[i]] + b;
    IdOnlyAt(tabs, i);
    RemoveIdSplit(a, tabs[i], b);
  }

  /** With unique ids, no tab before or after tab i has its id. */
  lemma IdOnlyAt(tabs: seq<Tab>, i: nat)
    requires UniqueIds(tabs) && i < |tabs|
    ensures !IdIn(tabs[..i], tabs[i].id) && !IdIn(tabs[i + 1..], tabs[i].id)
  {
    var a, b := tabs[..i], tabs[i + 1..];
    forall j | 0 <= j < |a| ensures a[j].id != tabs[i].id { assert a[j] == tabs[j]; }
    forall j | 0 <= j < |b| ensures b[j].id != tabs[i].id { assert b[j] == tabs[i + 1 + j]; }
  }

  /** Removing the id of a tab that no other tab has drops just that tab. */
  lemma RemoveIdSplit(a: seq<Tab>, t: Tab, b: seq<Tab>)
    requires !IdIn(a, t.id) && !IdIn(b, t.id)
    ensures RemoveId(a + [t] + b, t.id) == a + b
  {
    RemoveIdHead(t, b);
    RemoveIdAbsent(a, t.id);
    RemoveIdConcat(a, [t] + b, t.id);
    assert a + [t] + b == a + ([t] + b);
  }

  lemma RemoveIdHead(t: Tab, b: seq<Tab>)
    requires !IdIn(b, t.id)
    ensures RemoveId([t] + b, t.id) == b
  {
    RemoveIdAbsent(b, t.id);
    assert ([t] + b)[1..] == b;
  }

  /** Removing keeps ids and paths unique. */
  lemma RemoveIdKeepsUnique(tabs: seq<Tab>, id: string)
    ensures UniqueIds(tabs) ==> UniqueIds(RemoveId(tabs, id))
    ensures UniquePaths(tabs) ==> UniquePaths(RemoveId(tabs, id))
  {
    if UniqueIds(tabs) {
      RemoveIdKeepsUniqueIds(tabs, id);
    }
    if UniquePaths(tabs) {
      RemoveIdKeepsUniquePaths(tabs, id);
    }
  }

  lemma {:induction false} RemoveIdKeepsUniqueIds(tabs: seq<Tab>, id: string)
    requires UniqueIds(tabs)
    ensures UniqueIds(RemoveId(tabs, id))
    decreases |tabs|
  {
    if tabs != [] {
      var rest := RemoveId(tabs[1..], id);
      assert UniqueIds(tabs[1..]);
      RemoveIdKeepsUniqueIds(tabs[1..], id);
      RemoveIdMembers(tabs[1..], id);
      forall j | 0 <= j < |rest| ensures rest[j].id != tabs[0].id {
        assert rest[j] in tabs[1..];
      }
    }
  }

  lemma {:induction false} RemoveIdKeepsUniquePaths(tabs: seq<Tab>, id: string)
    requires UniquePaths(tabs)
    ensures UniquePaths(RemoveId(tabs, id))
    decreases |tabs|
  {
    if tabs != [] {
      var rest := RemoveId(tabs[1..], id);
      assert UniquePaths(tabs[1..]);
      RemoveIdKeepsUniquePaths(tabs[1..], id);
      RemoveIdMembers(tabs[1..], id);
      forall j | 0 <= j < |rest| ensures rest[j].path != tabs[0].path {
        assert rest[j] in tabs[1..];
      }
    }
  }

  /** Removing keeps the generator's later ids fresh. */
  lemma RemoveIdStaysFresh(tabs: seq<Tab>, id: string, gen: IdSupply, next: nat)
    requires FreshFrom(gen, next, tabs)
    ensures FreshFrom(gen, next, RemoveId(tabs, id))
  {
    var r := RemoveId(tabs, id);
    RemoveIdMembers(tabs, id);
    forall k: nat, i | next <= k && 0 <= i < |r| ensures r[i].id != gen(k) {
      assert r[i] in tabs;
    }
  }

  /** `removeTab` clears the active id exactly when it was the removed one. */
  function ActiveAfterRemove(active: Option<string>, id: string): (r: Option<string>)
    ensures r != Some(id)
    ensures active != Some(id) ==> r == active
    ensures r == None <==> active == None || active == Some(id)
  {
    if active == Some(id) then None else active
  }

  /** Even after the refresh that follows removal, the removed id is never active. */
  lemma RemovedNeverActive(tabs: seq<Tab>, active: Option<string>, id: string, folders: seq<Folder>)
    ensures DetectActive(RemoveId(tabs, id), ActiveAfterRemove(active, id), folders) != Some(id)
  {
    var rest := RemoveId(tabs, id);
    RemoveIdMembers(tabs, id);
    if |folders| == 1 && PathIn(rest, folders[0].path) {
      var i := IndexOfPath(rest, folders[0].path);
      assert rest[i] in rest;
    }
  }

  // ---- renameTab ------------------------------------------------------------

  /** Whether a prompt answer renames a tab currently named `current`. */
  predicate RenameApplies(answer: Option<string>, current: string) {
    Truthy(answer) && answer.value != current
  }

  /** `tab.name = newName` on the first tab with the given id, if any. */
  function Rename(tabs: seq<Tab>, id: string, newName: string): (r: seq<Tab>)
    ensures |r| == |tabs|
  {
    var i := IndexOfId(tabs, id);
    if i < |tabs| then tabs[i := tabs[i].(name := newName)] else tabs
  }

  /** With the item's name current, a prompt answer renames the tab iff it
      is non-empty and actually changes the list. */
  lemma RenameAppliesChanges(tabs: seq<Tab>, id: string, answer: Option<string>, current: string)
    requires IdIn(tabs, id) && tabs[IndexOfId(tabs, id)].name == current
    ensures RenameApplies(answer, current) <==> Truthy(answer) && Rename(tabs, id, answer.value) != tabs
  {
    var i := IndexOfId(tabs, id);
    if Truthy(answer) && answer.value != current {
      assert Rename(tabs, id, answer.value)[i].name != tabs[i].name;
    }
  }

  /** Renaming changes only the name of the first tab with that id: every id
      and path, and every other tab, is as before. */
  lemma RenameOnlyName(tabs: seq<Tab>, id: string, newName: string)
    ensures var r := Rename(tabs, id, newName);
            && |r| == |tabs|
            && (forall k :: 0 <= k < |tabs| ==> r[k].id == tabs[k].id && r[k].path == tabs[k].path)
            && (forall k :: 0 <= k < |tabs| && k != IndexOfId(tabs, id) ==> r[k] == tabs[k])
            && (IdIn(tabs, id) ==> r[IndexOfId(tabs, id)].name == newName)
  {
  }

  /** Renaming back to the old name restores the list. */
  lemma RenameUndo(tabs: seq<Tab>, id: string, newName: string)
    requires IdIn(tabs, id)
    ensures Rename(Rename(tabs, id, newName), id, tabs[IndexOfId(tabs, id)].name) == tabs
  {
    var i := IndexOfId(tabs, id);
    var r := Rename(tabs, id, newName);
    assert IndexOfId(r, id) == i by {
      assert r[i].id == id;
      assert forall j :: 0 <= j < i ==> r[j].id == tabs[j].id && tabs[j].id != id;
    }
  }

  /** Renaming keeps ids and paths unique. */
  lemma RenameKeepsUnique(tabs: seq<Tab>, id: string, newName: string)
    ensures UniqueIds(tabs) ==> UniqueIds(Rename(tabs, id, newName))
    ensures UniquePaths(tabs) ==> UniquePaths(Rename(tabs, id, newName))
  {
    RenameOnlyName(tabs, id, newName);
  }

  /** Renaming keeps the generator's later ids fresh. */
  lemma RenameStaysFresh(tabs: seq<Tab>, id: string, newName: string, gen: IdSupply, next: nat)
    requires FreshFrom(gen, next, tabs)
    ensures FreshFrom(gen, next, Rename(tabs, id, newName))
  {
    RenameOnlyName(tabs, id, newName);
    var r := Rename(tabs, id, newName);
    forall k: nat, i | next <= k && 0 <= i < |r| ensures r[i].id != gen(k) {
      assert r[i].id == tabs[i].id;
    }
  }

  // ---- switchTab ------------------------------------------------------------

  /** What `switchTab` does, in the order it checks. */
  datatype SwitchOutcome = UnknownTab | MissingFolder | AlreadyActive | Opened(path: string)

  function SwitchOutcomeOf(tabs: seq<Tab>, active: Option<string>, id: string, existing: set<string>): (r: SwitchOutcome)
    ensures r == UnknownTab <==> !IdIn(tabs, id)
    ensures r.Opened? ==> r.path in existing && PathIn(tabs, r.path)
  {
    var i := IndexOfId(tabs, id);
    if i == |tabs| then UnknownTab
    else if tabs[i].path !in existing then MissingFolder
    else if Some(tabs[i].id) == active then AlreadyActive
    else Opened(tabs[i].path)
  }

  function ActiveAfterSwitch(outcome: SwitchOutcome, active: Option<string>, id: string): Option<string> {
    if outcome.Opened? then Some(id) else active
  }

  /** A folder is opened only for a known, existing, inactive target, and it is the target's folder. */
  lemma SwitchOpensTarget(tabs: seq<Tab>, active: Option<string>, id: string, existing: set<string>)
    ensures SwitchOutcomeOf(tabs, active, id, existing).Opened? <==>
            IdIn(tabs, id) && tabs[IndexOfId(tabs, id)].path in existing && active != Some(id)
    ensures SwitchOutcomeOf(tabs, active, id, existing).Opened? ==>
            SwitchOutcomeOf(tabs, active, id, existing).path == tabs[IndexOfId(tabs, id)].path
  {
  }

  /** Switching is idempotent: switching again to the same tab opens nothing. */
  lemma SwitchIdempotent(tabs: seq<Tab>, active: Option<string>, id: string, existing: set<string>)
    ensures var o := SwitchOutcomeOf(tabs, active, id, existing);
            !SwitchOutcomeOf(tabs, ActiveAfterSwitch(o, active, id), id, existing).Opened?
  {
  }

  /** The existence check comes before the active check: a tab whose folder
      is gone reports the missing folder, whatever is active. */
  lemma SwitchChecksExistenceFirst(tabs: seq<Tab>, active: Option<string>, id: string, existing: set<string>)
    requires IdIn(tabs, id) && tabs[IndexOfId(tabs, id)].path !in existing
    ensures SwitchOutcomeOf(tabs, active, id, existing) == MissingFolder
  {
  }

  /** The silent and the error outcomes for a known tab: its folder is
      missing exactly when it does not exist, and it is already active
      exactly when it exists and is the active tab. */
  lemma SwitchReportsKnownTab(tabs: seq<Tab>, active: Option<string>, id: string, existing: set<string>)
    ensures SwitchOutcomeOf(tabs, active, id, existing) == MissingFolder <==>
            IdIn(tabs, id) && tabs[IndexOfId(tabs, id)].path !in existing
    ensures SwitchOutcomeOf(tabs, active, id, existing) == AlreadyActive <==>
            IdIn(tabs, id) && tabs[IndexOfId(tabs, id)].path in existing && active == Some(id)
  {
  }

  /** After a switch the target is active whenever it is known and its folder
      exists, whether it was opened now or was active already; otherwise the
      active id is kept. */
  lemma SwitchActivatesTarget(tabs: seq<Tab>, active: Option<string>, id: string, existing: set<string>)
    ensures ActiveAfterSwitch(SwitchOutcomeOf(tabs, active, id, existing), active, id)
            == if IdIn(tabs, id) && tabs[IndexOfId(tabs, id)].path in existing then Some(id) else active
  {
  }
}
