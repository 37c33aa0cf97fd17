/** Walking a listing page by page through the API, while the table changes between the pages. */
module ApiWalks {
  import opened Bytes
  import opened Api
  import opened Table
  import opened Paging
  import opened Services
  import opened Walks
  import Selector
  import H = Handlers

  /** A list call of the API, but for its page size and token. */
  function Answer(rows: seq<Row>, f: Filter, selector: Str, size: int, token: Str):
      Result<(seq<Resource>, Str), Code>
  {
    ListResources(rows, f.tenant, f.kind, f.project, selector, size, token)
  }

  /** A completed walk of the API: page i is the answer to a call on the i-th table with the i-th page size
      and the token of the page before; only the last page comes without a token. */
  ghost predicate IsApiWalk(
      tables: seq<seq<Row>>, f: Filter, selector: Str, sizes: seq<int>, token: Str, pages: seq<seq<Resource>>)
    requires |tables| == |sizes| == |pages|
  {
    |tables| > 0 &&
    match Answer(tables[0], f, selector, sizes[0], token)
    case Err(_) => false
    case Ok((page, next)) =>
      && page == pages[0]
      && if |tables| == 1 then next == []
         else next != [] && IsApiWalk(tables[1..], f, selector, sizes[1..], next, pages[1..])
  }

  /** The project and name that a client sees. */
  function CursorSeen(item: Resource): Cursor {
    Cursor(H.MetaOf(item).project, H.MetaOf(item).name)
  }

  ghost predicate ItemsAscend(items: seq<Resource>) {
    forall i, j :: 0 <= i < j < |items| ==> CursorLess(CursorSeen(items[i]), CursorSeen(items[j]))
  }

  ghost predicate ItemListed(items: seq<Resource>, key: Key) {
    exists item :: item in items && CursorSeen(item) == CursorOf(key)
  }

  ghost predicate ItemListedOnce(items: seq<Resource>, key: Key) {
    exists i :: 0 <= i < |items| && CursorSeen(items[i]) == CursorOf(key)
      && forall j :: 0 <= j < |items| && CursorSeen(items[j]) == CursorOf(key) ==> j == i
  }

  predicate ItemEndSafe(page: seq<Resource>) {
    page != [] ==> NUL !in CursorSeen(page[|page| - 1]).project
  }

  predicate ItemEndsSafe(pages: seq<seq<Resource>>) {
    forall i :: 0 <= i < |pages| - 1 ==> ItemEndSafe(pages[i])
  }

  // ----- objects and records -----

  /** The objects are these records, decoded, in order. */
  ghost predicate Decoded(kind: Str, recs: seq<Record>, items: seq<Resource>) {
    |items| == |recs| && forall i :: 0 <= i < |recs| ==> H.Decode(kind, recs[i]) == Ok(items[i])
  }

  lemma {:induction false} DecodeAllGives(kind: Str, recs: seq<Record>)
    requires DecodeAll(kind, recs).Ok?
    ensures Decoded(kind, recs, DecodeAll(kind, recs).value)
  {
    if recs == [] {
    } else {
      DecodeAllGives(kind, recs[..|recs| - 1]);
    }
  }

  lemma {:induction false} DecodedIsAll(kind: Str, recs: seq<Record>, items: seq<Resource>)
    requires Decoded(kind, recs, items)
    ensures DecodeAll(kind, recs) == Ok(items)
  {
    if recs == [] {
    } else {
      var n := |recs| - 1;
      DecodedIsAll(kind, recs[..n], items[..n]);
      assert items == items[..n] + [items[n]];
    }
  }

  lemma DecodeAllDecodes(kind: Str, recs: seq<Record>, items: seq<Resource>)
    ensures DecodeAll(kind, recs) == Ok(items) <==> Decoded(kind, recs, items)
  {
    if DecodeAll(kind, recs).Ok? {
      DecodeAllGives(kind, recs);
    }
    if Decoded(kind, recs, items) {
      DecodedIsAll(kind, recs, items);
    }
  }

  lemma DecodedCursor(kind: Str, rec: Record, item: Resource)
    requires H.Decode(kind, rec) == Ok(item)
    ensures CursorSeen(item) == CursorOf(rec.key)
  {
  }

  lemma DecodedKeys(kind: Str, recs: seq<Record>, items: seq<Resource>)
    requires Decoded(kind, recs, items)
    ensures forall i :: 0 <= i < |recs| ==> CursorSeen(items[i]) == CursorOf(recs[i].key)
    ensures KeysAscend(recs) <==> ItemsAscend(items)
    ensures EndSafe(recs) <==> ItemEndSafe(items)
  {
    forall i | 0 <= i < |recs| ensures CursorSeen(items[i]) == CursorOf(recs[i].key) {
      DecodedCursor(kind, recs[i], items[i]);
    }
  }

  lemma DecodedAppend(kind: Str, a: seq<Record>, x: seq<Resource>, b: seq<Record>, y: seq<Resource>)
    requires Decoded(kind, a, x) && Decoded(kind, b, y)
    ensures Decoded(kind, a + b, x + y)
  {
  }

  ghost predicate PagesDecoded(kind: Str, recs: seq<seq<Record>>, pages: seq<seq<Resource>>) {
    |recs| == |pages| && forall i :: 0 <= i < |recs| ==> Decoded(kind, recs[i], pages[i])
  }

  lemma {:induction false} ConcatDecoded(kind: Str, recs: seq<seq<Record>>, pages: seq<seq<Resource>>)
    requires PagesDecoded(kind, recs, pages)
    ensures Decoded(kind, Concat(recs), Concat(pages))
  {
    if recs != [] {
      ConcatDecoded(kind, recs[1..], pages[1..]);
      DecodedAppend(kind, recs[0], pages[0], Concat(recs[1..]), Concat(pages[1..]));
    }
  }

  lemma EndsDecoded(kind: Str, recs: seq<seq<Record>>, pages: seq<seq<Resource>>)
    requires PagesDecoded(kind, recs, pages)
    ensures EndsSafe(recs) <==> ItemEndsSafe(pages)
  {
    forall i | 0 <= i < |recs| ensures EndSafe(recs[i]) <==> ItemEndSafe(pages[i]) {
      DecodedKeys(kind, recs[i], pages[i]);
    }
  }

  // ----- walks of the API and walks of the store -----

  /** One answer of the API is one page of the store, decoded, and its token. */
  lemma AnswerIsPage(rows: seq<Row>, f: Filter, selector: Str, size: int, token: Str, items: seq<Resource>, next: Str)
      returns (page: seq<Record>)
    requires Selector.Parse(selector) == Some(f.labelSelector)
    requires Answer(rows, f, selector, size, token) == Ok((items, next))
    ensures List(rows, ListOptions(f, size, token)) == Ok((page, next)) && Decoded(f.kind, page, items)
  {
    page := List(rows, ListOptions(f, size, token)).value.0;
    DecodeAllDecodes(f.kind, page, items);
  }

  lemma ApiWalkUnfolds(
      tables: seq<seq<Row>>, f: Filter, selector: Str, sizes: seq<int>, token: Str, pages: seq<seq<Resource>>)
      returns (next: Str)
    requires |tables| == |sizes| == |pages| && IsApiWalk(tables, f, selector, sizes, token, pages)
    ensures |tables| > 0 && Answer(tables[0], f, selector, sizes[0], token) == Ok((pages[0], next))
    ensures next == [] <==> |tables| == 1
    ensures |tables| > 1 ==> IsApiWalk(tables[1..], f, selector, sizes[1..], next, pages[1..])
  {
    next := Answer(tables[0], f, selector, sizes[0], token).value.1;
  }

  lemma ApiWalkFolds(
      tables: seq<seq<Row>>, f: Filter, selector: Str, sizes: seq<int>, token: Str, pages: seq<seq<Resource>>,
      next: Str)
    requires |tables| == |sizes| == |pages| > 0
    requires Answer(tables[0], f, selector, sizes[0], token) == Ok((pages[0], next)) && (next == [] <==> |tables| == 1)
    requires |tables| > 1 ==> IsApiWalk(tables[1..], f, selector, sizes[1..], next, pages[1..])
    ensures IsApiWalk(tables, f, selector, sizes, token, pages)
  {
  }

  lemma WalkUnfoldsAll(
      tables: seq<seq<Row>>, f: Filter, limits: seq<int>, token: Str, pages: seq<seq<Record>>) returns (next: Str)
    requires |tables| == |limits| == |pages| && IsWalk(tables, f, limits, token, pages)
    ensures |tables| > 0 && List(tables[0], ListOptions(f, limits[0], token)) == Ok((pages[0], next))
    ensures next == [] <==> |tables| == 1
    ensures |tables| > 1 ==> IsWalk(tables[1..], f, limits[1..], next, pages[1..])
  {
    next := List(tables[0], ListOptions(f, limits[0], token)).value.1;
  }

  lemma WalkFolds(
      tables: seq<seq<Row>>, f: Filter, limits: seq<int>, token: Str, pages: seq<seq<Record>>, next: Str)
    requires |tables| == |limits| == |pages| > 0
    requires List(tables[0], ListOptions(f, limits[0], token)) == Ok((pages[0], next))
    requires next == [] <==> |tables| == 1
    requires |tables| > 1 ==> IsWalk(tables[1..], f, limits[1..], next, pages[1..])
    ensures IsWalk(tables, f, limits, token, pages)
  {
  }

  lemma PagesDecodedCons(kind: Str, page: seq<Record>, rest: seq<seq<Record>>, pages: seq<seq<Resource>>)
    requires pages != [] && Decoded(kind, page, pages[0]) && PagesDecoded(kind, rest, pages[1..])
    ensures PagesDecoded(kind, [page] + rest, pages) && ([page] + rest)[1..] == rest
  {
    forall i | 0 < i < |pages| ensures Decoded(kind, ([page] + rest)[i], pages[i]) {
      assert ([page] + rest)[i] == rest[i - 1] && pages[i] == pages[1..][i - 1];
    }
  }

  /** A walk of the API is a walk of the store, decoded. */
  lemma {:induction false} ApiWalkIsWalk(
      tables: seq<seq<Row>>, f: Filter, selector: Str, sizes: seq<int>, token: Str, pages: seq<seq<Resource>>)
      returns (recs: seq<seq<Record>>)
    requires |tables| == |sizes| == |pages|
    requires Selector.Parse(selector) == Some(f.labelSelector) && IsApiWalk(tables, f, selector, sizes, token, pages)
    ensures |recs| == |pages| && PagesDecoded(f.kind, recs, pages) && IsWalk(tables, f, sizes, token, recs)
  {
    var next := ApiWalkUnfolds(tables, f, selector, sizes, token, pages);
    var page := AnswerIsPage(tables[0], f, selector, sizes[0], token, pages[0], next);
    var rest: seq<seq<Record>> := [];
    if |tables| > 1 {
      rest := ApiWalkIsWalk(tables[1..], f, selector, sizes[1..], next, pages[1..]);
    }
    recs := [page] + rest;
    PagesDecodedCons(f.kind, page, rest, pages);
    WalkFolds(tables, f, sizes, token, recs, next);
  }

  lemma ListedIsSeen(kind: Str, recs: seq<Record>, items: seq<Resource>, key: Key)
    requires Decoded(kind, recs, items) && Listed(recs, key)
    ensures ItemListed(items, key)
  {
    var r :| r in recs && r.key == key;
    var i :| 0 <= i < |recs| && recs[i] == r;
    DecodedKeys(kind, recs, items);
    assert items[i] in items;
  }

  lemma SeenOnce(items: seq<Resource>, key: Key)
    requires ItemsAscend(items) && ItemListed(items, key)
    ensures ItemListedOnce(items, key)
  {
    var item :| item in items && CursorSeen(item) == CursorOf(key);
    var i :| 0 <= i < |items| && items[i] == item;
    CursorLessIrreflexive(CursorOf(key));
  }

  /** Pagination under mutation, as clients see it.  In a completed walk of the API from the first page,
      with any writes between the pages and any page sizes, every object that is present and matching
      throughout is returned.  If no page but the last ends in a project with a NUL byte, the objects
      returned strictly ascend, and each of these is returned exactly once. */
  lemma ApiWalkUnderMutation(
      tables: seq<seq<Row>>, f: Filter, selector: Str, sizes: seq<int>, pages: seq<seq<Resource>>)
    requires |tables| == |sizes| == |pages| && AllSorted(tables)
    requires Selector.Parse(selector) == Some(f.labelSelector) && IsApiWalk(tables, f, selector, sizes, [], pages)
    ensures forall key :: HoldsThroughout(tables, f, key) ==> ItemListed(Concat(pages), key)
    ensures ItemEndsSafe(pages) ==> ItemsAscend(Concat(pages))
    ensures ItemEndsSafe(pages) ==>
              forall key :: HoldsThroughout(tables, f, key) ==> ItemListedOnce(Concat(pages), key)
  {
    var recs := ApiWalkIsWalk(tables, f, selector, sizes, [], pages);
    WalkUnderMutation(tables, f, sizes, recs);
    ConcatDecoded(f.kind, recs, pages);
    EndsDecoded(f.kind, recs, pages);
    DecodedKeys(f.kind, Concat(recs), Concat(pages));
    forall key | HoldsThroughout(tables, f, key) ensures ItemListed(Concat(pages), key) {
      ListedIsSeen(f.kind, Concat(recs), Concat(pages), key);
    }
    if ItemEndsSafe(pages) {
      forall key | HoldsThroughout(tables, f, key) ensures ItemListedOnce(Concat(pages), key) {
        SeenOnce(Concat(pages), key);
      }
    }
  }

  /** What one unlimited call answers. */
  lemma UnlimitedAnswer(rows: seq<Row>, f: Filter, selector: Str, items: seq<Resource>)
    requires Selector.Parse(selector) == Some(f.labelSelector)
    ensures Answer(rows, f, selector, 0, []) == Ok((items, [])) <==>
              Decoded(f.kind, Records(Collect(rows, f, None)), items)
  {
    var all := Records(Collect(rows, f, None));
    assert List(rows, ListOptions(f, 0, [])) == Ok((all, []));
    DecodeAllDecodes(f.kind, all, items);
  }

  /** A completed walk of the API over a table that does not change returns what one unlimited call returns
      if and only if no page but the last ends in a project with a NUL byte. */
  lemma ApiWalkIsTheListing(
      rows: seq<Row>, f: Filter, selector: Str, sizes: seq<int>, pages: seq<seq<Resource>>)
    requires |sizes| == |pages| && Sorted(rows) && Selector.Parse(selector) == Some(f.labelSelector)
    requires IsApiWalk(Copies(rows, |pages|), f, selector, sizes, [], pages)
    ensures Answer(rows, f, selector, 0, []) == Ok((Concat(pages), [])) <==> ItemEndsSafe(pages)
  {
    var recs := ApiWalkIsWalk(Copies(rows, |pages|), f, selector, sizes, [], pages);
    StaticWalkFrom(rows, f, sizes, [], None, recs);
    ConcatDecoded(f.kind, recs, pages);
    EndsDecoded(f.kind, recs, pages);
    UnlimitedAnswer(rows, f, selector, Concat(pages));
    ListedInOrder(rows, f, Concat(recs), Concat(pages));
  }

  /** If the objects of a walk are those of the listing, they ascend as it does. */
  lemma ListedInOrder(rows: seq<Row>, f: Filter, recs: seq<Record>, items: seq<Resource>)
    requires Sorted(rows) && Decoded(f.kind, recs, items)
    ensures Decoded(f.kind, Records(Collect(rows, f, None)), items) ==> KeysAscend(recs)
  {
    var all := Records(Collect(rows, f, None));
    DecodedKeys(f.kind, recs, items);
    if Decoded(f.kind, all, items) {
      CollectAscending(rows, f, None);
      DecodedKeys(f.kind, all, items);
    }
  }

  /** As long as no call fails, a walk of the API is there for every walk of the store: fetching page after
      page ends if it does in the store. */
  lemma {:induction false} WalkIsApiWalk(
      tables: seq<seq<Row>>, f: Filter, selector: Str, sizes: seq<int>, token: Str, recs: seq<seq<Record>>)
      returns (pages: seq<seq<Resource>>)
    requires |tables| == |sizes| == |recs|
    requires Selector.Parse(selector) == Some(f.labelSelector) && IsWalk(tables, f, sizes, token, recs)
    requires Decodable(f.kind, recs)
    ensures |pages| == |recs| && PagesDecoded(f.kind, recs, pages)
    ensures IsApiWalk(tables, f, selector, sizes, token, pages)
  {
    var next := WalkUnfoldsAll(tables, f, sizes, token, recs);
    var page := PageIsAnswer(tables[0], f, selector, sizes[0], token, recs[0], next);
    var rest: seq<seq<Resource>> := [];
    if |tables| > 1 {
      rest := WalkIsApiWalk(tables[1..], f, selector, sizes[1..], next, recs[1..]);
    }
    pages := [page] + rest;
    FirstPageDecoded(f.kind, recs, page, rest);
    ApiWalkFolds(tables, f, selector, sizes, token, pages, next);
  }

  ghost predicate Decodable(kind: Str, recs: seq<seq<Record>>) {
    forall i :: 0 <= i < |recs| ==> DecodeAll(kind, recs[i]).Ok?
  }

  lemma FirstPageDecoded(kind: Str, recs: seq<seq<Record>>, page: seq<Resource>, rest: seq<seq<Resource>>)
    requires recs != [] && Decoded(kind, recs[0], page) && PagesDecoded(kind, recs[1..], rest)
    ensures PagesDecoded(kind, recs, [page] + rest) && ([page] + rest)[1..] == rest
  {
    assert recs == [recs[0]] + recs[1..];
    assert ([page] + rest)[1..] == rest;
    PagesDecodedCons(kind, recs[0], recs[1..], [page] + rest);
  }

  lemma PageIsAnswer(rows: seq<Row>, f: Filter, selector: Str, size: int, token: Str, page: seq<Record>, next: Str)
      returns (items: seq<Resource>)
    requires Selector.Parse(selector) == Some(f.labelSelector) && DecodeAll(f.kind, page).Ok?
    requires List(rows, ListOptions(f, size, token)) == Ok((page, next))
    ensures Answer(rows, f, selector, size, token) == Ok((items, next)) && Decoded(f.kind, page, items)
  {
    items := DecodeAll(f.kind, page).value;
    DecodeAllDecodes(f.kind, page, items);
  }
}
