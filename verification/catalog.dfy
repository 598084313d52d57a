/**
 The catalog `build_index` produces from the files a directory walk found:
 the item records, newest first, and the sorted list of folders; plus the
 lookup of an item by identifier.
 */
module Catalog {
  import opened Options
  import opened Text
  import opened Paths
  import opened Sorting

  /** One indexed video file. `mtime` is only ever compared, so any ordered
      value stands for the filesystem timestamp. */
  datatype Item = Item(id: string, relpath: string, filename: string, folder: string, mtime: int, size: nat)

  /** A regular file the walk of the root reported: its path relative to the
      root as the platform spells it, its final component, and its `stat` data. */
  datatype FileEntry = FileEntry(rawRel: string, name: string, mtime: int, size: nat)

  /** The in-memory catalog of one root. */
  datatype Index = Index(builtAt: int, root: string, items: seq<Item>, folders: seq<string>)

  /** The identifier digest of `compute_id`, kept opaque: any function of
      (relative path, modification time, size). */
  type IdFunction = (string, int, nat) -> string

  const VideoExts: set<string> := {".mp4", ".mov", ".m4v", ".webm"}

  // ---------------------------------------------------------------------------
  // Which files are videos
  // ---------------------------------------------------------------------------

  /** `name.rfind(".")`: the last index holding a dot, or -1. */
  function LastDot(name: string): (i: int)
    ensures -1 <= i < |name|
    ensures i >= 0 ==> name[i] == '.'
    ensures forall j :: i < j < |name| ==> name[j] != '.'

    decreases |name|
  {
    if name == [] then -1
    else if name[|name| - 1] == '.' then |name| - 1
    else
      var i := LastDot(name[..|name| - 1]);
      assert forall j :: i < j < |name| - 1 ==> name[j] == name[..|name| - 1][j];
      i
  }

  /** `PurePath.suffix`: from the last dot on, provided that dot is neither
      the first nor the last character of the name. */
  function Suffix(name: string): string {
    var i := LastDot(name);
    if 0 < i < |name| - 1 then name[i..] else ""
  }

  /** The extension test of `build_index`, case-insensitive. */
  predicate IsVideoName(name: string) {
    Lower(Suffix(name)) in VideoExts
  }

  /** A video extension, in any case, is one dot followed by at least three dot-free characters. */
  lemma VideoExtShape(ext: string)
    requires Lower(ext) in VideoExts
    ensures |ext| >= 4 && ext[0] == '.'
    ensures forall j :: 1 <= j < |ext| ==> ext[j] != '.'
  {
    var low := Lower(ext);
    assert low[0] == '.';
    forall j | 1 <= j < |ext| ensures ext[j] != '.' {
      assert low[j] != '.';
    }
  }

  /** A name is accepted exactly when, ignoring case, it is a non-empty stem
      followed by one of the video extensions. */
  lemma VideoNameShape(name: string)
    ensures IsVideoName(name) <==>
      exists k :: 0 < k < |name| && Lower(name[k..]) in VideoExts
  {
    if IsVideoName(name) {
      var i := LastDot(name);
      assert Lower(name[i..]) in VideoExts;
    }
    if k :| 0 < k < |name| && Lower(name[k..]) in VideoExts {
      VideoExtAccepted(name, k);
    }
  }

  lemma VideoExtAccepted(name: string, k: nat)
    requires 0 < k < |name| && Lower(name[k..]) in VideoExts
    ensures IsVideoName(name)
  {
    var ext := name[k..];
    VideoExtShape(ext);
    assert forall j :: k < j < |name| ==> name[j] != '.' by {
      forall j | k < j < |name| ensures name[j] != '.' {
        assert name[j] == ext[j - k];
      }
    }
    assert name[k] == '.';
    var i := LastDot(name);
    assert i == k;
    assert Suffix(name) == ext;
  }

  /** A hidden file named only by an extension is not a video. */
  lemma DotFileNotVideo()
    ensures !IsVideoName(".mp4")
  {
    var name := ".mp4";
    assert name[0] == '.' && name[1] == 'm' && name[2] == 'p' && name[3] == '4';
    assert LastDot(name) == 0;
  }

  // ---------------------------------------------------------------------------
  // Items
  // ---------------------------------------------------------------------------

  /** The record `build_index` makes for one video file. */
  function MakeItem(f: FileEntry, idOf: IdFunction): (it: Item)
    ensures IsNormalised(it.relpath)
    ensures it.folder == FolderOf(it.relpath)
    ensures it.id == idOf(it.relpath, it.mtime, it.size)
    ensures it.relpath == SafeNorm(f.rawRel) && it.filename == f.name
    ensures it.mtime == f.mtime && it.size == f.size
  {
    var rel := SafeNorm(f.rawRel);
    Item(idOf(rel, f.mtime, f.size), rel, f.name, FolderOf(rel), f.mtime, f.size)
  }

  /** A file of the walk that `build_index` keeps. */
  predicate IsVideoFile(f: FileEntry) {
    IsVideoName(f.name)
  }

  function ItemMaker(idOf: IdFunction): FileEntry -> Item {
    (f: FileEntry) => MakeItem(f, idOf)
  }

  /** The video files among `files`, in walk order, as items. */
  function VideoItems(files: seq<FileEntry>, idOf: IdFunction): (items: seq<Item>)
    ensures |items| <= |files|
  {
    Collect(files, IsVideoFile, ItemMaker(idOf))
  }

  /** `f` is a video file and `it` is its record. */
  predicate Yields(f: FileEntry, idOf: IdFunction, it: Item) {
    IsVideoName(f.name) && MakeItem(f, idOf) == it
  }

  /** An item is made exactly for each video file of the walk. */
  lemma VideoItemsMembers(files: seq<FileEntry>, idOf: IdFunction, it: Item)
    ensures it in VideoItems(files, idOf) <==> exists i :: 0 <= i < |files| && Yields(files[i], idOf, it)
  {
    var make := ItemMaker(idOf);
    CollectMembers(files, IsVideoFile, make, it);
    if i :| 0 <= i < |files| && IsVideoFile(files[i]) && make(files[i]) == it {
      assert Yields(files[i], idOf, it);
    }
    if i :| 0 <= i < |files| && Yields(files[i], idOf, it) {
      assert IsVideoFile(files[i]) && make(files[i]) == it;
    }
  }

  /** The items follow the walk: the `a`-th item is made from the `a`-th
      video file the walk met. */
  lemma VideoItemsInWalkOrder(files: seq<FileEntry>, idOf: IdFunction)
    ensures Enumerates(Positions(files, IsVideoFile), files, IsVideoFile)
    ensures |VideoItems(files, idOf)| == |Positions(files, IsVideoFile)|
    ensures forall a :: 0 <= a < |Positions(files, IsVideoFile)| ==>
      VideoItems(files, idOf)[a] == MakeItem(files[Positions(files, IsVideoFile)[a]], idOf)
  {
    PositionsEnumerate(files, IsVideoFile);
    CollectInOrder(files, IsVideoFile, ItemMaker(idOf));
  }

  function MTime(it: Item): int {
    it.mtime
  }

  // ---------------------------------------------------------------------------
  // The folder list
  // ---------------------------------------------------------------------------

  function SlashCount(s: string): nat {
    multiset(s)['/']
  }

  /** The order of `sorted(folders, key=lambda s: (s.count("/"), s.lower()))`. */
  predicate FolderLe(a: string, b: string) {
    SlashCount(a) < SlashCount(b) || (SlashCount(a) == SlashCount(b) && LexLe(Lower(a), Lower(b)))
  }

  lemma FolderLeTotal(a: string, b: string)
    ensures FolderLe(a, b) || FolderLe(b, a)
  {
    LexLeTotal(Lower(a), Lower(b));
  }

  lemma FolderLeTransitive(a: string, b: string, c: string)
    requires FolderLe(a, b) && FolderLe(b, c)
    ensures FolderLe(a, c)
  {
    if SlashCount(a) == SlashCount(b) == SlashCount(c) {
      LexLeTransitive(Lower(a), Lower(b), Lower(c));
    }
  }

  ghost predicate FoldersSorted(s: seq<string>) {
    forall i, j :: 0 <= i < j < |s| ==> FolderLe(s[i], s[j])
  }

  predicate NoDuplicates(s: seq<string>) {
    forall i, j :: 0 <= i < j < |s| ==> s[i] != s[j]
  }

  lemma NoDuplicatesTail(s: seq<string>)
    requires NoDuplicates(s) && s != []
    ensures NoDuplicates(s[1..]) && s[0] !in s[1..]
  {
    forall m | 0 <= m < |s| - 1 ensures s[1..][m] != s[0] {
      assert s[1..][m] == s[m + 1];
    }
    forall i, j | 0 <= i < j < |s| - 1 ensures s[1..][i] != s[1..][j] {
      assert s[1..][i] == s[i + 1] && s[1..][j] == s[j + 1];
    }
  }

  /** The distinct values of `xs`, each at its first occurrence. */
  function Distinct(xs: seq<string>): (r: seq<string>)
    ensures NoDuplicates(r)
    ensures forall x :: x in r <==> x in xs
    decreases |xs|
  {
    if xs == [] then []
    else
      var d := Distinct(xs[..|xs| - 1]);
      var x := xs[|xs| - 1];
      assert xs == xs[..|xs| - 1] + [x];
      if x in d then d else d + [x]
  }

  /** Puts `x` in front of the first folder it does not sort after. */
  function InsertFolder(x: string, s: seq<string>): (r: seq<string>)
    requires FoldersSorted(s)
    ensures FoldersSorted(r)
    ensures |r| == |s| + 1
    ensures forall y :: y in r <==> y == x || y in s
    ensures NoDuplicates(s) && x !in s ==> NoDuplicates(r)
    decreases |s|
  {
    if s == [] || FolderLe(x, s[0]) then
      var r := [x] + s;
      assert FoldersSorted(r) by {
        forall i, j | 0 <= i < j < |r| ensures FolderLe(r[i], r[j]) {
          if i == 0 && j > 1 {
            FolderLeTransitive(x, s[0], s[j - 1]);
          }
        }
      }
      r
    else
      FolderLeTotal(x, s[0]);
      var tail := InsertFolder(x, s[1..]);
      var r := [s[0]] + tail;
      assert FoldersSorted(r) by {
        forall i, j | 0 <= i < j < |r| ensures FolderLe(r[i], r[j]) {
          if i == 0 {
            assert r[j] in tail;
            if r[j] != x {
              var m :| 0 <= m < |s[1..]| && s[1..][m] == r[j];
              assert s[m + 1] == r[j];
            }
          }
        }
      }
      assert NoDuplicates(s) && x !in s ==> NoDuplicates(r) by {
        if NoDuplicates(s) && x !in s {
          NoDuplicatesTail(s);
          assert s[0] !in tail;
          forall i, j | 0 <= i < j < |r| ensures r[i] != r[j] {
            if i > 0 {
              assert r[i] == tail[i - 1] && r[j] == tail[j - 1];
            } else {
              assert r[j] in tail;
            }
          }
        }
      }
      r
  }

  /** Insertion sort of a folder list. */
  function SortFolders(s: seq<string>): (r: seq<string>)
    ensures FoldersSorted(r)
    ensures forall y :: y in r <==> y in s
    ensures NoDuplicates(s) ==> NoDuplicates(r)
    decreases |s|
  {
    if s == [] then []
    else
      var rest := SortFolders(s[1..]);
      assert NoDuplicates(s) ==> NoDuplicates(s[1..]) && s[0] !in s[1..] by {
        if NoDuplicates(s) {
          NoDuplicatesTail(s);
        }
      }
      assert s == [s[0]] + s[1..];
      InsertFolder(s[0], rest)
  }

  function ItemFolders(items: seq<Item>): (r: seq<string>)
    ensures |r| == |items|
    ensures forall i :: 0 <= i < |items| ==> r[i] == items[i].folder
  {
    seq(|items|, i requires 0 <= i < |items| => items[i].folder)
  }

  /** Some item is filed under `f`. */
  predicate HasFolder(items: seq<Item>, f: string) {
    exists i :: 0 <= i < |items| && items[i].folder == f
  }

  /** The folder list of `build_index`: the root folder `""` and the folder
      of every item, each once, ordered by depth and then case-insensitively. */
  function FolderList(items: seq<Item>): (folders: seq<string>)
    ensures "" in folders
    ensures forall i :: 0 <= i < |items| ==> items[i].folder in folders
    ensures forall f :: f in folders ==> f == "" || HasFolder(items, f)
    ensures NoDuplicates(folders)
    ensures FoldersSorted(folders)
  {
    var all := [""] + ItemFolders(items);
    AllFolders(items, all);
    SortFolders(Distinct(all))
  }

  lemma AllFolders(items: seq<Item>, all: seq<string>)
    requires all == [""] + ItemFolders(items)
    ensures "" in all
    ensures forall i :: 0 <= i < |items| ==> items[i].folder in all
    ensures forall f :: f in all ==> f == "" || HasFolder(items, f)
  {
    assert all[0] == "";
    forall i | 0 <= i < |items| ensures items[i].folder in all {
      assert all[i + 1] == items[i].folder;
    }
    forall f | f in all ensures f == "" || HasFolder(items, f) {
      var m :| 0 <= m < |all| && all[m] == f;
      if m > 0 {
        assert items[m - 1].folder == f;
      }
    }
  }

  /** The folder list is ordered by depth first: a shallower folder never
      follows a deeper one. */
  lemma FoldersByDepth(items: seq<Item>, i: nat, j: nat)
    requires i < j < |FolderList(items)|
    ensures SlashCount(FolderList(items)[i]) <= SlashCount(FolderList(items)[j])
  {
  }

  /** The folder list starts with the root folder `""`. */
  lemma RootFolderFirst(items: seq<Item>)
    ensures FolderList(items) != [] && FolderList(items)[0] == ""
  {
    var fs := FolderList(items);
    var k :| 0 <= k < |fs| && fs[k] == "";
    assert fs[0] == "" || FolderLe(fs[0], fs[k]);
    assert Lower(fs[0]) == [] ==> fs[0] == [];
  }

  // ---------------------------------------------------------------------------
  // build_index
  // ---------------------------------------------------------------------------

  /** The fields `build_index` derives from the relative path. */
  predicate WellFormed(it: Item) {
    IsNormalised(it.relpath) && it.folder == FolderOf(it.relpath)
  }

  lemma VideoItemsWellFormed(files: seq<FileEntry>, idOf: IdFunction)
    ensures forall it :: it in VideoItems(files, idOf) ==> WellFormed(it)
  {
    forall it | it in VideoItems(files, idOf) ensures WellFormed(it) {
      VideoItemsMembers(files, idOf, it);
      var i :| 0 <= i < |files| && Yields(files[i], idOf, it);
    }
  }

  /** The same elements, in whatever order, are filed under the same folders. */
  lemma PermutationFolders(a: seq<Item>, b: seq<Item>)
    requires multiset(a) == multiset(b)
    ensures forall it :: it in a <==> it in b
    ensures forall f :: HasFolder(a, f) ==> HasFolder(b, f)
  {
    assert forall it :: it in a <==> it in multiset(a);
    assert forall it :: it in b <==> it in multiset(b);
    forall f | HasFolder(a, f) ensures HasFolder(b, f) {
      var i :| 0 <= i < |a| && a[i].folder == f;
      assert a[i] in b;
      var j :| 0 <= j < |b| && b[j] == a[i];
    }
  }

  /** `build_index` over the files of the walk, in walk order; `now` stands for
      the build time. */
  function BuildIndex(files: seq<FileEntry>, root: string, now: int, idOf: IdFunction): (idx: Index)
    ensures idx.root == root && idx.builtAt == now
    ensures multiset(idx.items) == multiset(VideoItems(files, idOf))
    ensures SortedDesc(idx.items, MTime)
    ensures forall t :: KeyFilter(idx.items, MTime, t) == KeyFilter(VideoItems(files, idOf), MTime, t)
    ensures forall i :: 0 <= i < |idx.items| ==> WellFormed(idx.items[i])
    ensures "" in idx.folders
    ensures forall i :: 0 <= i < |idx.items| ==> idx.items[i].folder in idx.folders
    ensures forall f :: f in idx.folders ==> f == "" || HasFolder(idx.items, f)
    ensures NoDuplicates(idx.folders) && FoldersSorted(idx.folders)
  {
    var walked := VideoItems(files, idOf);
    var items := SortDesc(walked, MTime);
    var folders := FolderList(walked);
    BuildIndexFacts(walked, items, folders);
    VideoItemsWellFormed(files, idOf);
    Index(now, root, items, folders)
  }

  /** Among the items of one modification time, the index keeps the walk's
      order: they are the walked records with that time, in walk order, and
      so a subsequence of the walked records. */
  lemma BuildIndexKeepsWalkOrder(files: seq<FileEntry>, root: string, now: int, idOf: IdFunction, t: int)
    ensures var walked := VideoItems(files, idOf);
      var sameTime := KeyFilter(BuildIndex(files, root, now, idOf).items, MTime, t);
      sameTime == Where(walked, HasKey(MTime, t)) && IsSubsequence(sameTime, walked)
  {
    var walked := VideoItems(files, idOf);
    KeyFilterIsWhere(walked, MTime, t);
    WhereSubsequence(walked, HasKey(MTime, t));
  }

  lemma BuildIndexFacts(walked: seq<Item>, items: seq<Item>, folders: seq<string>)
    requires multiset(items) == multiset(walked)
    requires folders == FolderList(walked)
    ensures forall i :: 0 <= i < |items| ==> items[i].folder in folders && items[i] in walked
    ensures forall f :: f in folders ==> f == "" || HasFolder(items, f)
  {
    PermutationFolders(walked, items);
    forall i | 0 <= i < |items| ensures items[i].folder in folders && items[i] in walked {
      assert items[i] in items;
      var m :| 0 <= m < |walked| && walked[m] == items[i];
    }
  }

  // ---------------------------------------------------------------------------
  // get_item_by_id
  // ---------------------------------------------------------------------------

  /** `get_item_by_id`: the first item carrying `id`, if any. */
  function FindById(items: seq<Item>, id: string): (r: Option<Item>)
    ensures r.None? <==> forall i :: 0 <= i < |items| ==> items[i].id != id
    ensures r.Some? ==> r.value.id == id
    ensures r.Some? ==> exists i :: 0 <= i < |items| && items[i] == r.value && (forall j :: 0 <= j < i ==> items[j].id != id)
    decreases |items|
  {
    if items == [] then None
    else if items[0].id == id then Some(items[0])
    else
      var r := FindById(items[1..], id);
      assert forall i :: 0 < i < |items| ==> items[i] == items[1..][i - 1];
      r
  }
}
