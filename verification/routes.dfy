/**
 The request handlers over the catalog: `/api/feed`, `/api/suggest`,
 `/v/<id>` and `/file/<path>`. Query-string integers arrive already read by
 `int()`; the filesystem (path resolution, existence, file contents) is a
 parameter.
 */
module Routes {
  import opened Options
  import opened Text
  import opened Decimal
  import opened Paths
  import opened Sorting
  import opened Catalog
  import opened Ranking
  import opened Paging
  import opened Ranges

  const DefaultPageSize: int := 12
  const MaxPageSize: int := 50
  const DefaultSuggestions: int := 8
  const MaxSuggestions: int := 20

  /** A query-string integer: not given, given and read by `int()`, or given
      but rejected by `int()` (`ValueError`). */
  datatype IntArg = Absent | Parsed(value: int) | Malformed

  /** `max(1, min(limit, most))`. */
  function ClampLimit(limit: int, most: int): (r: int)
    requires most >= 1
    ensures 1 <= r <= most
    ensures 1 <= limit <= most ==> r == limit
    ensures limit < 1 ==> r == 1
    ensures limit > most ==> r == most
  {
    if limit < most then (if limit < 1 then 1 else limit) else most
  }

  /** Clamping never moves a limit that is already allowed, so it is
      idempotent, and it keeps the order of limits. */
  lemma ClampLimitMonotone(a: int, b: int, most: int)
    requires most >= 1 && a <= b
    ensures ClampLimit(a, most) <= ClampLimit(b, most)
    ensures ClampLimit(ClampLimit(a, most), most) == ClampLimit(a, most)
  {
  }

  // ---------------------------------------------------------------------------
  // /api/feed
  // ---------------------------------------------------------------------------

  datatype FeedReply = FeedBadRequest | FeedPage(page: Page)

  /** The `starts_with` argument: stripped, an empty value standing for `None`. */
  function PrefixArg(startsWith: string): string {
    Strip(startsWith)
  }

  /** The offset of the page: 0 when absent, raised to 0 when negative. */
  function FeedOffset(offset: IntArg): (o: int)
    ensures o >= 0
    ensures offset.Parsed? && offset.value >= 0 ==> o == offset.value
    ensures offset.Parsed? && offset.value < 0 ==> o == 0
    ensures !offset.Parsed? ==> o == 0
  {
    if offset.Parsed? && offset.value > 0 then offset.value else 0
  }

  /** The size of the page: 12 when absent, else held in [1, 50]. */
  function FeedLimit(limit: IntArg): (l: int)
    ensures 1 <= l <= MaxPageSize
    ensures !limit.Parsed? ==> l == DefaultPageSize
    ensures limit.Parsed? && 1 <= limit.value <= MaxPageSize ==> l == limit.value
    ensures limit.Parsed? && limit.value < 1 ==> l == 1
    ensures limit.Parsed? && limit.value > MaxPageSize ==> l == MaxPageSize
  {
    if limit.Parsed? then ClampLimit(limit.value, MaxPageSize) else DefaultPageSize
  }

  /** The reply of `/api/feed` over the search results `results`: a 400 when
      either integer is malformed, else a page of at most `limit` entries,
      the results from `offset` on, in order. */
  function FeedFor(results: seq<Item>, offset: IntArg, limit: IntArg): (r: FeedReply)
    ensures r.FeedBadRequest? <==> offset.Malformed? || limit.Malformed?
    ensures r.FeedPage? ==>
      && r.page.total == |results|
      && r.page.offset == FeedOffset(offset)
      && r.page.limit == FeedLimit(limit)
      && |r.page.items| <= r.page.limit
      && |r.page.items| == (if r.page.offset >= |results| then 0
                            else if r.page.limit < |results| - r.page.offset then r.page.limit
                            else |results| - r.page.offset)
      && (forall k :: 0 <= k < |r.page.items| ==> r.page.items[k] == EntryOf(results[r.page.offset + k]))
  {
    if offset.Malformed? || limit.Malformed? then FeedBadRequest
    else
      PageContents(results, FeedOffset(offset), FeedLimit(limit));
      FeedPage(MakePage(results, FeedOffset(offset), FeedLimit(limit)))
  }

  /** `/api/feed` over the catalog `items`. */
  function ApiFeed(items: seq<Item>, q: string, folder: string, startsWith: string,
                   offset: IntArg, limit: IntArg): (r: FeedReply)
    ensures r.FeedBadRequest? <==> offset.Malformed? || limit.Malformed?
  {
    FeedFor(FilterItems(items, q, folder, PrefixArg(startsWith)), offset, limit)
  }

  /** The results never hold anything that is not in the catalog. */
  lemma FilterItemsWithin(items: seq<Item>, q: string, folder: string, startsWith: string)
    ensures forall it :: it in FilterItems(items, q, folder, startsWith) ==> it in items
  {
    forall it | it in FilterItems(items, q, folder, startsWith) ensures it in items {
      FilterItemsMembers(items, q, folder, startsWith, it);
    }
  }

  /** The `/v/<id>` lookup finds an item with the id of every item of the catalog. */
  lemma UrlResolves(items: seq<Item>, it: Item)
    requires it in items
    ensures FindById(items, VideoUrl(it.id)[3..]).Some?
    ensures FindById(items, VideoUrl(it.id)[3..]).value.id == it.id
  {
    var i :| 0 <= i < |items| && items[i] == it;
    assert items[i].id == it.id;
  }

  /** Every `url` on a page of results drawn from the catalog leads back,
      through the `/v/<id>` lookup, to a catalog item with that id. */
  lemma PageUrlsResolve(items: seq<Item>, results: seq<Item>, offset: IntArg, limit: IntArg, k: nat)
    requires forall it :: it in results ==> it in items
    requires FeedFor(results, offset, limit).FeedPage?
    requires k < |FeedFor(results, offset, limit).page.items|
    ensures var e := FeedFor(results, offset, limit).page.items[k];
      FindById(items, e.url[3..]).Some? && FindById(items, e.url[3..]).value.id == e.id
  {
    var p := FeedFor(results, offset, limit).page;
    var it := results[p.offset + k];
    assert p.items[k] == EntryOf(it);
    UrlResolves(items, it);
  }

  /** Every `url` a feed page hands out leads back, through the `/v/<id>`
      lookup, to an item of the catalog with that id. */
  lemma FeedUrlsResolve(items: seq<Item>, q: string, folder: string, startsWith: string,
                        offset: IntArg, limit: IntArg, k: nat)
    requires !offset.Malformed? && !limit.Malformed?
    requires k < |ApiFeed(items, q, folder, startsWith, offset, limit).page.items|
    ensures var e := ApiFeed(items, q, folder, startsWith, offset, limit).page.items[k];
      FindById(items, e.url[3..]).Some? && FindById(items, e.url[3..]).value.id == e.id
  {
    var results := FilterItems(items, q, folder, PrefixArg(startsWith));
    assert ApiFeed(items, q, folder, startsWith, offset, limit) == FeedFor(results, offset, limit);
    FilterItemsWithin(items, q, folder, PrefixArg(startsWith));
    PageUrlsResolve(items, results, offset, limit, k);
  }

  // ---------------------------------------------------------------------------
  // /api/suggest
  // ---------------------------------------------------------------------------

  /** One suggestion: the feed entry without url, time and size. */
  datatype Suggestion = Suggestion(id: string, filename: string, folder: string, relpath: string)

  function SuggestionOf(it: Item): Suggestion {
    Suggestion(it.id, it.filename, it.folder, it.relpath)
  }

  /** The number of suggestions asked for: 8 when absent or malformed, else
      held in [1, 20]. */
  function SuggestLimit(limit: IntArg): (n: int)
    ensures 1 <= n <= MaxSuggestions
    ensures !limit.Parsed? ==> n == DefaultSuggestions
    ensures limit.Parsed? && 1 <= limit.value <= MaxSuggestions ==> n == limit.value
    ensures limit.Parsed? && limit.value < 1 ==> n == 1
    ensures limit.Parsed? && limit.value > MaxSuggestions ==> n == MaxSuggestions
  {
    if limit.Parsed? then ClampLimit(limit.value, MaxSuggestions) else DefaultSuggestions
  }

  /** `results[:limit]`, cut to the suggestion fields: at most 20 of them. */
  function SuggestFor(results: seq<Item>, limit: IntArg): (r: seq<Suggestion>)
    ensures |r| <= MaxSuggestions
    ensures |r| == (if SuggestLimit(limit) < |results| then SuggestLimit(limit) else |results|)
    ensures forall k :: 0 <= k < |r| ==> r[k] == SuggestionOf(results[k])
  {
    var top := PySlice(results, 0, SuggestLimit(limit));
    WindowSlice(results, 0, SuggestLimit(limit));
    seq(|top|, k requires 0 <= k < |top| => SuggestionOf(top[k]))
  }

  /** `filter_items` strips the query itself, so stripping it first, as
      `/api/suggest` does, changes nothing. */
  lemma FilterItemsStripped(items: seq<Item>, q: string, folder: string, startsWith: string)
    ensures FilterItems(items, Strip(q), folder, startsWith) == FilterItems(items, q, folder, startsWith)
  {
    StripIdempotent(q);
  }

  /** `/api/suggest` over the catalog `items`. The route strips the query
      before `filter_items` strips it again; the result is the same as for the
      query as given. */
  function ApiSuggest(items: seq<Item>, q: string, folder: string, startsWith: string,
                      limit: IntArg): (r: seq<Suggestion>)
    ensures |r| <= MaxSuggestions
    ensures r == SuggestFor(FilterItems(items, q, folder, PrefixArg(startsWith)), limit)
  {
    FilterItemsStripped(items, q, folder, PrefixArg(startsWith));
    SuggestFor(FilterItems(items, Strip(q), folder, PrefixArg(startsWith)), limit)
  }

  /** Suggestions and feed entries that agree, position by position, on
      the fields they share. */
  predicate SameFields(s: seq<Suggestion>, es: seq<FeedEntry>) {
    && |s| == |es|
    && forall k :: 0 <= k < |s| ==>
         s[k].id == es[k].id && s[k].filename == es[k].filename
         && s[k].folder == es[k].folder && s[k].relpath == es[k].relpath
  }

  /** The suggestions are the first feed page of the same search, cut to the
      suggestion fields, whenever both ask for the same number of entries. */
  lemma PageOneMatches(results: seq<Item>, n: int)
    requires 1 <= n <= MaxSuggestions
    ensures SameFields(SuggestFor(results, Parsed(n)), FeedFor(results, Absent, Parsed(n)).page.items)
  {
  }

  // ---------------------------------------------------------------------------
  // The filesystem and the file routes
  // ---------------------------------------------------------------------------

  /** What the routes ask of the filesystem: `Path.resolve()`, `exists()`,
      `is_file()` and the bytes of a file. */
  datatype Fs = Fs(resolve: string -> string, present: string -> bool, isFile: string -> bool,
                   content: string -> seq<bv8>)

  /** `is_within_root(root, target)`: both paths are resolved once more, then
      the containment test compares them. */
  predicate WithinRoot(fs: Fs, root: string, target: string) {
    IsWithinRoot(fs.resolve(root), fs.resolve(target))
  }

  /** When resolving is idempotent, the second resolution inside
      `is_within_root` changes nothing for paths the handlers already
      resolved. */
  lemma WithinRootOfResolved(fs: Fs, rootDir: string, path: string)
    requires forall p :: fs.resolve(fs.resolve(p)) == fs.resolve(p)
    ensures WithinRoot(fs, fs.resolve(rootDir), fs.resolve(path)) <==>
            IsWithinRoot(fs.resolve(rootDir), fs.resolve(path))
  {
  }

  /** The anchor `pathlib` gives an absolute path on POSIX: `//` when it
      starts with exactly two slashes, else `/`. */
  function Anchor(rel: string): string {
    if |rel| >= 2 && rel[..2] == "//" && (|rel| == 2 || rel[2] != '/') then "//" else "/"
  }

  /** `str(root / rel)` for a resolved `root` on POSIX. `pathlib` parses
      `rel` into its components, dropping empty and `.` ones; a relative
      `rel` adds them below the root, an absolute one replaces the root. */
  function Child(root: string, rel: string): (p: string)
    ensures (rel == [] || rel[0] != '/') ==> IsWithinRoot(root, p)
    ensures rel != [] && rel[0] == '/' ==> HasPrefix(p, Anchor(rel))
  {
    var parts := ProperParts(Split(rel));
    if rel != [] && rel[0] == '/' then Anchor(rel) + Join(parts)
    else if parts == [] then root
    else
      ChildWithinRoot(root, Join(parts));
      DirPrefix(root) + Join(parts)
  }

  /** `pathlib` keeps exactly the pieces that are neither empty nor `.`,
      in their order. */
  lemma {:induction false} ProperPartsIsWhere(parts: seq<string>)
    ensures ProperParts(parts) == Where(parts, IsProperPart)
    decreases |parts|
  {
    if parts != [] {
      ProperPartsIsWhere(parts[1..]);
    }
  }

  /** Whatever `rel` is, the join is the root's directory prefix (or, for an
      absolute `rel`, its anchor) followed by text that splits into exactly
      the proper pieces of `rel`; with no proper piece it is the root itself
      (or the anchor). */
  lemma ChildParts(root: string, rel: string)
    ensures var parts := ProperParts(Split(rel));
      var head := if rel != [] && rel[0] == '/' then Anchor(rel) else DirPrefix(root);
      var p := Child(root, rel);
      && (parts != [] ==> HasPrefix(p, head) && Split(p[|head|..]) == parts)
      && (parts == [] ==> p == if rel != [] && rel[0] == '/' then Anchor(rel) else root)
  {
    var parts := ProperParts(Split(rel));
    var head := if rel != [] && rel[0] == '/' then Anchor(rel) else DirPrefix(root);
    if parts != [] {
      ProperPartsSlashFree(Split(rel));
      JoinSplit(parts);
      assert Child(root, rel) == head + Join(parts);
      AfterPrefix(head, Join(parts));
    }
  }

  /** A normalised path of real names is joined below the root as it is. */
  lemma ChildOfNormalName(root: string, rel: string)
    requires IsNormalised(rel) && HasProperParts(rel) && rel != ""
    ensures Child(root, rel) == DirPrefix(root) + rel
  {
    var parts := Split(rel);
    SplitJoin(rel);
    assert ProperParts(parts) == parts;
    assert parts != [];
  }

  /** The join drops a `.` component and a trailing slash, both of which
      `safe_norm` keeps: `a/./b/` lands at `a/b` below the root. */
  lemma ChildDropsDots(root: string, a: string, b: string)
    requires IsProperPart(a) && IsProperPart(b) && '/' !in a && '/' !in b
    ensures Child(root, a + "/./" + b + "/") == DirPrefix(root) + a + "/" + b
  {
    assert DirPrefix(root) + (a + "/" + b) == DirPrefix(root) + a + "/" + b;
    var rel := a + "/./" + b + "/";
    assert rel[0] == a[0];
    assert ProperParts(Split(rel)) == [a, b] by {
      SplitDotted(a, b);
      ProperDotted(a, b);
    }
    assert Join([a, b]) == a + "/" + b by {
      assert [a, b][1..] == [b];
    }
    RelativeChild(root, rel);
  }

  /** A relative name is joined below the root from its proper parts. */
  lemma RelativeChild(root: string, rel: string)
    requires rel == [] || rel[0] != '/'
    ensures var parts := ProperParts(Split(rel));
      Child(root, rel) == if parts == [] then root else DirPrefix(root) + Join(parts)
  {
  }

  lemma SplitDotted(a: string, b: string)
    requires '/' !in a && '/' !in b
    ensures Split(a + "/./" + b + "/") == [a, ".", b, ""]
  {
    assert [a] + ([".", b, ""]) == [a, ".", b, ""];
    assert ["."] + [b, ""] == [".", b, ""];
    var tail := b + "/" + "";
    var dotted := "." + "/" + tail;
    assert a + "/" + dotted == a + "/./" + b + "/";
    assert Split(tail) == [b, ""] by {
      SplitCons(b, "");
      assert Split("") == [""];
    }
    SplitCons(".", tail);
    SplitCons(a, dotted);
  }


  lemma ProperDotted(a: string, b: string)
    requires IsProperPart(a) && IsProperPart(b)
    ensures ProperParts([a, ".", b, ""]) == [a, b]
  {
    assert ProperParts([""]) == [] by {
      assert [""][1..] == [];
    }
    assert ProperParts([b, ""]) == [b] by {
      assert [b, ""][1..] == [""];
    }
    assert ProperParts([".", b, ""]) == [b] by {
      assert [".", b, ""][1..] == [b, ""];
    }
    assert [a, ".", b, ""][1..] == [".", b, ""];
  }

  /** An absolute path replaces the root, whatever the root is: this is why
      the file route strips leading slashes first. */
  lemma AbsoluteChildIgnoresRoot(root: string, name: string)
    requires IsNormalised(name) && HasProperParts(name) && name != ""
    ensures Child(root, "/" + name) == "/" + name
  {
    var rel := "/" + name;
    assert rel[..0] == "" && rel[1..] == name;
    SplitAt(rel, 0);
    var parts := Split(name);
    SplitJoin(name);
    assert ProperParts(parts) == parts;
    assert ProperParts([""] + parts) == parts;
    assert Anchor(rel) == "/" by {
      assert rel[1] == name[0];
    }
  }

  datatype Reply =
    | NotFound                                                  // abort(404)
    | RangeNotSatisfiable                                       // abort(416)
    | SendFile(path: string)                                    // send_file(path, conditional=True)
    | ServerError                                               // an uncaught exception: 500
    | PartialContent(body: seq<bv8>, contentRange: string, contentLength: string) // 206

  /** The resolved file behind a catalog id. Whatever it returns lies
      inside the root and exists; it returns one exactly when the id is
      known and its joined, resolved path passes both tests. */
  function VideoTarget(items: seq<Item>, rootDir: string, id: string, fs: Fs): (t: Option<string>)
    ensures t.Some? ==> WithinRoot(fs, fs.resolve(rootDir), t.value) && fs.present(t.value)
    ensures FindById(items, id).None? ==> t.None?
    ensures FindById(items, id).Some? ==>
      var p := fs.resolve(Child(fs.resolve(rootDir), FindById(items, id).value.relpath));
      t == if WithinRoot(fs, fs.resolve(rootDir), p) && fs.present(p) then Some(p) else None
  {
    var root := fs.resolve(rootDir);
    match FindById(items, id)
    case None => None
    case Some(it) =>
      var target := fs.resolve(Child(root, it.relpath));
      if !WithinRoot(fs, root, target) || !fs.present(target) then None else Some(target)
  }

  /** `r` carries the bytes of `data` that the decision `o` selects. */
  predicate BytesOf(r: Reply, data: seq<bv8>, o: RangeOutcome) {
    r.PartialContent? && o.Partial? && o.start <= o.end < |data| && r.body == data[o.start..o.end + 1]
  }

  /** The reply for an existing path's bytes and the range decision taken
      for them. Only a partial reply opens the path; `open()` raises on a
      path that is not a regular file, which the handler does not catch. */
  function ServeRange(path: string, data: seq<bv8>, o: RangeOutcome, isFile: bool): (r: Reply)
    requires FitsFile(o, |data|)
    ensures r.SendFile? <==> o.HandOver?
    ensures r.SendFile? ==> r.path == path
    ensures r.RangeNotSatisfiable? <==> o.NotSatisfiable?
    ensures r.ServerError? <==> o.Partial? && !isFile
    ensures r.PartialContent? <==> o.Partial? && isFile
    ensures r.PartialContent? ==>
      && BytesOf(r, data, o)
      && |r.body| >= 1
      && r.contentRange == ContentRange(o.start, o.end, |data|)
      && r.contentLength == ContentLength(|r.body|)
    ensures !r.NotFound?
  {
    match o
    case HandOver => SendFile(path)
    case NotSatisfiable => RangeNotSatisfiable
    case Partial(start, end, length) =>
      if !isFile then ServerError
      else PartialContent(data[start..start + length], ContentRange(start, end, |data|), ContentLength(length))
  }

  /** `/v/<id>`: 404 unless the id names a file inside the root that exists;
      then the file handed to `send_file(conditional=True)`, a 416, or the
      requested bytes of that file; a 500 when a partial reply has to open
      a path that is not a regular file. */
  function StreamVideo(items: seq<Item>, rootDir: string, id: string, header: Option<string>, fs: Fs): (r: Reply)
    ensures r.NotFound? <==> VideoTarget(items, rootDir, id, fs).None?
    ensures r.SendFile? ==> WithinRoot(fs, fs.resolve(rootDir), r.path) && fs.present(r.path)
    ensures r.PartialContent? ==>
      && VideoTarget(items, rootDir, id, fs).Some?
      && var t := VideoTarget(items, rootDir, id, fs).value;
         WithinRoot(fs, fs.resolve(rootDir), t) && fs.isFile(t)
         && BytesOf(r, fs.content(t), DecideRange(header, |fs.content(t)|))
    ensures r.ServerError? <==>
      && VideoTarget(items, rootDir, id, fs).Some?
      && var t := VideoTarget(items, rootDir, id, fs).value;
         DecideRange(header, |fs.content(t)|).Partial? && !fs.isFile(t)
  {
    match VideoTarget(items, rootDir, id, fs)
    case None => NotFound
    case Some(target) =>
      var data := fs.content(target);
      ServeRange(target, data, DecideRange(header, |data|), fs.isFile(target))
  }

  /** On a filesystem where paths resolve to themselves and every file
      exists, each catalog item streams: its id never leads to a 404. */
  lemma CatalogItemStreams(items: seq<Item>, rootDir: string, i: nat, header: Option<string>, fs: Fs)
    requires i < |items|
    requires forall k :: 0 <= k < |items| ==> WellFormed(items[k])
    requires forall p :: fs.resolve(p) == p
    requires forall p :: fs.present(p)
    ensures !StreamVideo(items, rootDir, items[i].id, header, fs).NotFound?
  {
    var it := FindById(items, items[i].id);
    var k :| 0 <= k < |items| && items[k] == it.value && (forall j :: 0 <= j < k ==> items[j].id != items[i].id);
    var root := fs.resolve(rootDir);
    var target := Child(root, it.value.relpath);
    assert IsNormalised(items[k].relpath);
    ItemTargetFound(items, rootDir, items[i].id, fs, it.value, root, target);
  }

  /** The catalog lookup finds `it`, and its joined path is unchanged by
      resolving, lies inside the root and exists. */
  lemma ItemTargetFound(items: seq<Item>, rootDir: string, id: string, fs: Fs, it: Item, root: string, target: string)
    requires FindById(items, id) == Some(it) && IsNormalised(it.relpath)
    requires root == fs.resolve(rootDir) && fs.resolve(root) == root
    requires target == Child(root, it.relpath) && fs.resolve(target) == target && fs.present(target)
    ensures VideoTarget(items, rootDir, id, fs) == Some(target)
  {
    assert IsWithinRoot(root, target);
  }

  /** `/file/<path>`: a file it sends lies inside the root and is an
      existing regular file; it sends the normalised path below the root
      exactly when that path resolves to such a file. */
  function OpenFile(rootDir: string, relpath: string, fs: Fs): (r: Reply)
    ensures r.SendFile? ==> WithinRoot(fs, fs.resolve(rootDir), r.path) && fs.present(r.path) && fs.isFile(r.path)
    ensures r.NotFound? || r.SendFile?
    ensures r.SendFile? ==> r.path == fs.resolve(Child(fs.resolve(rootDir), SafeNorm(relpath)))
    ensures r.SendFile? <==>
      var p := fs.resolve(Child(fs.resolve(rootDir), SafeNorm(relpath)));
      WithinRoot(fs, fs.resolve(rootDir), p) && fs.present(p) && fs.isFile(p)
  {
    var root := fs.resolve(rootDir);
    var target := fs.resolve(Child(root, SafeNorm(relpath)));
    if !WithinRoot(fs, root, target) || !fs.present(target) || !fs.isFile(target) then NotFound
    else SendFile(target)
  }

  /** Leading slashes and backslashes cannot lift a request out of the
      root. `safe_norm` strips them, so the name never starts with a slash
      and the join keeps the root instead of replacing it (compare
      `AbsoluteChildIgnoresRoot`): the joined path, before it is resolved,
      is the root itself or lies below the root's directory prefix with a
      name character, not a slash, right after that prefix. A `..`
      component is not removed here; only the containment test on the
      resolved path catches it. */
  lemma OpenFileStaysBelowRoot(rootDir: string, relpath: string, fs: Fs)
    ensures var root := fs.resolve(rootDir);
      var target := Child(root, SafeNorm(relpath));
      IsWithinRoot(root, target)
      && (target == root
          || (HasPrefix(target, DirPrefix(root)) && |target| > |DirPrefix(root)| && target[|DirPrefix(root)|] != '/'))
  {
    var root := fs.resolve(rootDir);
    var rel := SafeNorm(relpath);
    var parts := ProperParts(Split(rel));
    if parts != [] {
      ProperPartsSlashFree(Split(rel));
      assert parts[0] != "" && '/' !in parts[0];
      JoinHead(parts);
      AfterPrefix(DirPrefix(root), Join(parts));
    }
  }
}
