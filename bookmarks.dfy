/** The bookmark record (`ProjectTab`), the open workspace folders, and the
    `find`/`some` lookups the store performs over its list. */
module Bookmarks {

  /** A saved bookmark: an opaque id, a display name and a folder path. */
  datatype Tab = Tab(id: string, name: string, path: string)

  /** An open workspace folder as the host reports it: display name and file-system path. */
  datatype Folder = Folder(name: string, path: string)

  /** Where the host's id generator comes from: the k-th call returns `gen(k)`. */
  type IdSupply = nat -> string

  /** `tabs.some(t => t.path === p)` */
  predicate PathIn(tabs: seq<Tab>, p: string) {
    exists i :: 0 <= i < |tabs| && tabs[i].path == p
  }

  /** Appending a tab bookmarks its path and keeps every other. */
  lemma PathInSnoc(tabs: seq<Tab>, t: Tab, p: string)
    ensures PathIn(tabs + [t], p) <==> PathIn(tabs, p) || t.path == p
  {
    if PathIn(tabs, p) {
      var i :| 0 <= i < |tabs| && tabs[i].path == p;
      assert (tabs + [t])[i] == tabs[i];
    }
    if t.path == p {
      assert (tabs + [t])[|tabs|] == t;
    }
  }

  predicate IdIn(tabs: seq<Tab>, id: string) {
    exists i :: 0 <= i < |tabs| && tabs[i].id == id
  }

  /** Index of the first tab whose path is `p` (what `find` returns), or `|tabs|` if none. */
  function IndexOfPath(tabs: seq<Tab>, p: string): (i: nat)
    ensures i <= |tabs|
    ensures i < |tabs| ==> tabs[i].path == p
    ensures forall j :: 0 <= j < i ==> tabs[j].path != p
    ensures i == |tabs| <==> !PathIn(tabs, p)
    decreases |tabs|
  {
    if |tabs| == 0 then 0
    else if tabs[0].path == p then 0
    else 1 + IndexOfPath(tabs[1..], p)
  }

  /** Index of the first tab whose id is `id`, or `|tabs|` if none. */
  function IndexOfId(tabs: seq<Tab>, id: string): (i: nat)
    ensures i <= |tabs|
    ensures i < |tabs| ==> tabs[i].id == id
    ensures forall j :: 0 <= j < i ==> tabs[j].id != id
    ensures i == |tabs| <==> !IdIn(tabs, id)
    decreases |tabs|
  {
    if |tabs| == 0 then 0
    else if tabs[0].id == id then 0
    else 1 + IndexOfId(tabs[1..], id)
  }

  /** No two tabs share an id. */
  predicate UniqueIds(tabs: seq<Tab>) {
    forall i, j :: 0 <= i < j < |tabs| ==> tabs[i].id != tabs[j].id
  }

  /** No two tabs share a path. */
  predicate UniquePaths(tabs: seq<Tab>) {
    forall i, j :: 0 <= i < j < |tabs| ==> tabs[i].path != tabs[j].path
  }

  /** Distinct generator calls give distinct ids. */
  ghost predicate Injective(gen: IdSupply) {
    forall a: nat, b: nat :: gen(a) == gen(b) ==> a == b
  }

  /** No call of the generator from `next` on returns an id already in `tabs`. */
  ghost predicate FreshFrom(gen: IdSupply, next: nat, tabs: seq<Tab>) {
    forall k: nat :: next <= k ==> !IdIn(tabs, gen(k))
  }
}
