/**
 `make_page`: one window of a result list, projected to the fields the feed
 sends, and the infinite-scroll reading of the list page after page.
 */
module Paging {
  import opened Catalog

  /** Where Python puts a slice bound `i` on a list of length `n`. */
  function SliceBound(i: int, n: nat): (b: nat)
    ensures b <= n
    ensures 0 <= i <= n ==> b == i
    ensures i > n ==> b == n
    ensures i < 0 ==> b == if i + n < 0 then 0 else i + n
  {
    if i < 0 then (if i + n < 0 then 0 else i + n) else if i > n then n else i
  }

  /** `s[start:stop]`. */
  function PySlice<T>(s: seq<T>, start: int, stop: int): (r: seq<T>)
    ensures SliceBound(start, |s|) <= SliceBound(stop, |s|) ==>
      r == s[SliceBound(start, |s|)..SliceBound(stop, |s|)]
    ensures SliceBound(stop, |s|) < SliceBound(start, |s|) ==> r == []
  {
    var a, b := SliceBound(start, |s|), SliceBound(stop, |s|);
    if b <= a then [] else s[a..b]
  }

  /** For a non-negative window, `s[offset:offset + limit]` holds the
      `min(limit, |s| - offset)` elements from `offset` on, and nothing when
      the window starts at or past the end. */
  lemma WindowSlice<T>(s: seq<T>, offset: int, limit: int)
    requires offset >= 0 && limit >= 0
    ensures var r := PySlice(s, offset, offset + limit);
      && |r| == (if offset >= |s| then 0 else if limit < |s| - offset then limit else |s| - offset)
      && (forall k :: 0 <= k < |r| ==> r[k] == s[offset + k])
  {
  }

  /** Two adjacent windows make the window that spans both. */
  lemma SliceSplit<T>(s: seq<T>, a: nat, b: nat, c: nat)
    requires a <= b <= c
    ensures PySlice(s, a, b) + PySlice(s, b, c) == PySlice(s, a, c)
  {
    var n := |s|;
    if a >= n {
    } else if b >= n {
      assert PySlice(s, b, c) == [];
    } else if c >= n {
      assert s[a..n] == s[a..b] + s[b..n];
    } else {
      assert s[a..c] == s[a..b] + s[b..c];
    }
  }

  /** One entry of the `items` array of `/api/feed`. */
  datatype FeedEntry = FeedEntry(id: string, filename: string, folder: string, relpath: string,
                                 url: string, mtime: int, size: nat)

  /** The address of the player route for an item id. */
  function VideoUrl(id: string): (url: string)
    ensures |url| == |id| + 3 && url[..3] == "/v/" && url[3..] == id
  {
    "/v/" + id
  }

  function EntryOf(it: Item): (e: FeedEntry) {
    FeedEntry(it.id, it.filename, it.folder, it.relpath, VideoUrl(it.id), it.mtime, it.size)
  }

  /** The entries of a list of items, in order. */
  function Entries(items: seq<Item>): (es: seq<FeedEntry>)
    ensures |es| == |items|
    ensures forall k :: 0 <= k < |items| ==> es[k] == EntryOf(items[k])
  {
    seq(|items|, k requires 0 <= k < |items| => EntryOf(items[k]))
  }

  lemma EntriesAppend(a: seq<Item>, b: seq<Item>)
    ensures Entries(a + b) == Entries(a) + Entries(b)
  {
    assert forall k :: 0 <= k < |a| ==> (a + b)[k] == a[k];
    assert forall k :: |a| <= k < |a| + |b| ==> (a + b)[k] == b[k - |a|];
  }

  /** An entry keeps the item's fields, and its url names the item's id. */
  lemma EntryKeepsItem(it: Item)
    ensures var e := EntryOf(it);
      && e.id == it.id && e.filename == it.filename && e.folder == it.folder
      && e.relpath == it.relpath && e.mtime == it.mtime && e.size == it.size
      && e.url[..3] == "/v/" && e.url[3..] == it.id
  {
  }

  /** The JSON object `make_page` returns. */
  datatype Page = Page(total: nat, offset: int, limit: int, items: seq<FeedEntry>)

  /** `make_page(items, offset, limit)`. */
  function MakePage(items: seq<Item>, offset: int, limit: int): (p: Page)
    ensures p.total == |items| && p.offset == offset && p.limit == limit
    ensures p.items == Entries(PySlice(items, offset, offset + limit))
  {
    Page(|items|, offset, limit, Entries(PySlice(items, offset, offset + limit)))
  }

  /** A page of a non-negative window: its size and its contents, by position. */
  lemma PageContents(items: seq<Item>, offset: int, limit: int)
    requires offset >= 0 && limit >= 0
    ensures var p := MakePage(items, offset, limit);
      && |p.items| == (if offset >= |items| then 0 else if limit < |items| - offset then limit else |items| - offset)
      && (forall k :: 0 <= k < |p.items| ==> p.items[k] == EntryOf(items[offset + k]))
  {
    WindowSlice(items, offset, limit);
  }

  /** What a client scrolling from `offset` sees: each page's entries, the
      next page asked for `limit` further on, until a page starts past the end. */
  function Scroll(items: seq<Item>, offset: nat, limit: nat): (es: seq<FeedEntry>)
    requires limit >= 1
    decreases |items| - offset
  {
    if offset >= |items| then []
    else MakePage(items, offset, limit).items + Scroll(items, offset + limit, limit)
  }

  /** One page of the scroll: the window up to `stop`, then the rest. */
  lemma ScrollStep(items: seq<Item>, offset: nat, limit: nat, stop: nat)
    requires limit >= 1 && offset < |items|
    requires stop == if offset + limit <= |items| then offset + limit else |items|
    ensures Scroll(items, offset, limit) == Entries(items[offset..stop]) + Scroll(items, offset + limit, limit)
  {
    assert PySlice(items, offset, offset + limit) == items[offset..stop];
  }

  /** The tail of the scroll after one page, given the claim for pages
      that start inside the list. */
  lemma ScrollRest(items: seq<Item>, next: nat, limit: nat, stop: nat)
    requires limit >= 1
    requires stop == if next <= |items| then next else |items|
    ensures Scroll(items, next, limit) == Entries(items[stop..])
    decreases |items| - stop, 1
  {
    if next <= |items| {
      ScrollShowsRest(items, next, limit);
    } else {
      assert items[stop..] == [];
    }
  }

  /** Scrolling shows every item from `offset` on exactly once, in order. */
  lemma {:induction false} ScrollShowsRest(items: seq<Item>, offset: nat, limit: nat)
    requires limit >= 1 && offset <= |items|
    ensures Scroll(items, offset, limit) == Entries(items[offset..])
    decreases |items| - offset, 0
  {
    if offset < |items| {
      var next := offset + limit;
      var stop := if next <= |items| then next else |items|;
      calc {
        Scroll(items, offset, limit);
        { ScrollStep(items, offset, limit, stop); }
        Entries(items[offset..stop]) + Scroll(items, next, limit);
        { ScrollRest(items, next, limit, stop); }
        Entries(items[offset..stop]) + Entries(items[stop..]);
        { EntriesAppend(items[offset..stop], items[stop..]); }
        Entries(items[offset..stop] + items[stop..]);
        { assert items[offset..stop] + items[stop..] == items[offset..]; }
        Entries(items[offset..]);
      }
    } else {
      assert items[offset..] == [];
    }
  }

  /** From the first page on, the feed is the whole result list. */
  lemma ScrollShowsAll(items: seq<Item>, limit: nat)
    requires limit >= 1
    ensures Scroll(items, 0, limit) == Entries(items)
  {
    ScrollShowsRest(items, 0, limit);
    assert items[0..] == items;
  }
}
