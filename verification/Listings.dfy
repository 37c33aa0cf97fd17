/** Listings of the states the control plane can reach. */
module Listings {
  import opened Bytes
  import opened Api
  import opened Table
  import opened Paging
  import opened Store
  import opened Services
  import opened ControlPlane
  import opened Walks
  import opened Outcomes
  import Selector
  import H = Handlers

  /** The objects of a page are its records, decoded, in order; the page fails exactly if one of them has a
      body of another kind. */
  lemma {:induction false} AllDecode(kind: Str, rows: seq<Row>)
    ensures DecodeAll(kind, Records(rows)).Ok? <==> forall row :: row in rows ==> KindOf(row.data) == kind
    ensures DecodeAll(kind, Records(rows)).Err? ==> DecodeAll(kind, Records(rows)) == Err(Internal)
    ensures DecodeAll(kind, Records(rows)).Ok? ==> DecodedFrom(DecodeAll(kind, Records(rows)).value, rows, kind)
  {
    if rows == [] {
    } else {
      var n := |rows| - 1;
      AllDecode(kind, rows[..n]);
      DecodeLast(kind, rows);
      assert rows == rows[..n] + [rows[n]];
    }
  }

  lemma DecodeLast(kind: Str, rows: seq<Row>)
    requires rows != []
    ensures var front := DecodeAll(kind, Records(rows[..|rows| - 1]));
            var last := rows[|rows| - 1];
            DecodeAll(kind, Records(rows)) ==
              if front.Err? then front
              else if KindOf(last.data) == kind then Ok(front.value + [H.Decode(kind, ToRecord(last)).value])
              else Err(Internal)
  {
    assert Records(rows)[..|rows| - 1] == Records(rows[..|rows| - 1]);
  }

  /** The object is what the client decodes of some row that the call ranges over. */
  ghost predicate Stored(t: Rows, f: Filter, item: Resource) {
    exists k :: k in t && InScope(k, f) && H.Decode(f.kind, ToRecord(t[k])) == Ok(item)
  }

  /** The decoded object carries the labels of the column. */
  lemma DecodedLabels(row: Row, kind: Str)
    requires H.ColumnsAgree(row) && row.key.kind == kind
    ensures H.Decode(kind, ToRecord(row)).Ok?
    ensures H.MetaOf(H.Decode(kind, ToRecord(row)).value).labels == row.labels
  {
  }

  /** The items of a listing, one for each of its rows. */
  ghost predicate DecodedFrom(items: seq<Resource>, out: seq<Row>, kind: Str) {
    |items| == |out| && forall i :: 0 <= i < |out| ==> H.Decode(kind, ToRecord(out[i])) == Ok(items[i])
  }

  /** The rows of an unpaged listing. */
  ghost predicate Selection(out: seq<Row>, rows: seq<Row>, f: Filter) {
    forall row :: row in out <==> row in rows && Matching(row, f)
  }

  /** With columns that agree with the bodies, a listing is the selection by decoded labels. */
  lemma ListedIsSelected(rows: seq<Row>, t: Rows, f: Filter, out: seq<Row>, items: seq<Resource>, item: Resource)
    requires Represents(rows, t) && forall row :: row in rows ==> H.ColumnsAgree(row)
    requires Selection(out, rows, f) && DecodedFrom(items, out, f.kind)
    requires item in items
    ensures Stored(t, f, item) && MatchesLabels(H.MetaOf(item).labels, f.labelSelector)
  {
    var i :| 0 <= i < |items| && items[i] == item;
    assert out[i] in out;
    var j :| 0 <= j < |rows| && rows[j] == out[i];
    DecodedLabels(out[i], f.kind);
    assert out[i].key in t;
  }

  lemma SelectedIsListed(rows: seq<Row>, t: Rows, f: Filter, out: seq<Row>, items: seq<Resource>, item: Resource)
    requires Represents(rows, t) && forall row :: row in rows ==> H.ColumnsAgree(row)
    requires Selection(out, rows, f) && DecodedFrom(items, out, f.kind)
    requires Stored(t, f, item) && MatchesLabels(H.MetaOf(item).labels, f.labelSelector)
    ensures item in items
  {
  }

  /** In every state of every run, an unpaged list call with a selector that parses succeeds and
      returns exactly the stored objects in its scope whose own labels, as the client decodes them,
      satisfy the selector: the labels column says what the body says. */
  lemma SelectedByDecodedLabels(
      tenants: set<Str>, run: seq<Action>, rows: seq<Row>, f: Filter, selector: Str)
    requires IsRun(AnyRun, Init(tenants), run)
    requires Sorted(rows) && TableOf(rows) == Exec(Init(tenants), run).table
    requires Selector.Parse(selector) == Some(f.labelSelector)
    ensures var answer := ListResources(rows, f.tenant, f.kind, f.project, selector, 0, []);
            && answer.Ok?
            && answer.value.1 == []
            && forall item :: item in answer.value.0 <==>
                 Stored(TableOf(rows), f, item) && MatchesLabels(H.MetaOf(item).labels, f.labelSelector)
  {
    var s := Exec(Init(tenants), run);
    InitInv(tenants);
    RunKeepsInv(AnyRun, Init(tenants), run);
    TableOfRepresents(rows);
    var out := Collect(rows, f, None);
    CollectMembers(rows, f, None);
    forall row | row in rows ensures H.ColumnsAgree(row) {
      var i :| 0 <= i < |rows| && rows[i] == row;
      var h := s.history[s.table[row.key].uid];
      assert H.ColumnsAgree(h[|h| - 1]);
    }
    AllDecode(f.kind, out);
    var items := DecodeAll(f.kind, Records(out)).value;
    forall item | item in items
      ensures Stored(s.table, f, item) && MatchesLabels(H.MetaOf(item).labels, f.labelSelector)
    {
      ListedIsSelected(rows, s.table, f, out, items, item);
    }
    forall item | Stored(s.table, f, item) && MatchesLabels(H.MetaOf(item).labels, f.labelSelector)
      ensures item in items
    {
      SelectedIsListed(rows, s.table, f, out, items, item);
    }
    assert DecodeToken([]) == Ok(None);
  }

  // ----- one page of the API -----

  /** The rows of a page. */
  function PageRows(rows: seq<Row>, f: Filter, limit: int, after: Option<Cursor>): seq<Row> {
    var out := Collect(rows, f, after);
    if limit <= 0 || |out| <= limit then out else out[..limit]
  }

  /** What a list call answers: InvalidArgument exactly for a selector that does not parse; an internal error
      for a token that does not decode or a row of the page with a body of another kind; and otherwise the
      rows past the token's cursor, as many as the page holds, each as a client sees it, in order, with a
      token exactly if there are more, which leads on from the last of them. */
  lemma PageAnswers(rows: seq<Row>, tenant: Str, kind: Str, project: Str, selector: Str, limit: int, token: Str)
    ensures var answer := ListResources(rows, tenant, kind, project, selector, limit, token);
            && (answer == Err(InvalidArgument) <==> Selector.Parse(selector).None?)
            && (Selector.Parse(selector).Some? ==>
                  && (answer.Err? ==> answer == Err(Internal))
                  && (DecodeToken(token).Err? ==> answer == Err(Internal))
                  && (DecodeToken(token).Ok? ==>
                        var f := Filter(tenant, kind, project, Selector.Parse(selector).value);
                        var after := DecodeToken(token).value;
                        var page := PageRows(rows, f, limit, after);
                        && (answer.Ok? <==> forall row :: row in page ==> KindOf(row.data) == kind)
                        && (answer.Ok? ==>
                              && ShowsRows(page, answer.value.0)
                              && LeadsOn(Collect(rows, f, after), limit, answer.value.1))))
  {
    if Selector.Parse(selector).Some? && DecodeToken(token).Ok? {
      var f := Filter(tenant, kind, project, Selector.Parse(selector).value);
      PageIsShown(rows, f, selector, limit, token, DecodeToken(token).value);
    }
  }

  lemma PageIsShown(rows: seq<Row>, f: Filter, selector: Str, limit: int, token: Str, after: Option<Cursor>)
    requires Selector.Parse(selector) == Some(f.labelSelector) && DecodeToken(token) == Ok(after)
    ensures var answer := ListResources(rows, f.tenant, f.kind, f.project, selector, limit, token);
            var page := PageRows(rows, f, limit, after);
            && (answer.Err? ==> answer == Err(Internal))
            && (answer.Ok? <==> forall row :: row in page ==> KindOf(row.data) == f.kind)
            && (answer.Ok? ==>
                  ShowsRows(page, answer.value.0) && LeadsOn(Collect(rows, f, after), limit, answer.value.1))
  {
    var page := PageRows(rows, f, limit, after);
    var next := ListIsPageAt(rows, f, limit, token, after);
    assert PageAt(rows, f, limit, after).0 == Records(page);
    AllDecode(f.kind, page);
    var items := DecodeAll(f.kind, Records(page));
    if items.Ok? {
      RowsShown(f.kind, page, items.value);
    }
  }

  lemma RowsShown(kind: Str, page: seq<Row>, items: seq<Resource>)
    requires DecodedFrom(items, page, kind)
    ensures ShowsRows(page, items)
  {
    forall i | 0 <= i < |page| ensures IsShown(page[i], items[i]) {
      DecodeShows(kind, page[i]);
    }
  }

  /** The objects are these rows as a client sees them. */
  predicate ShowsRows(page: seq<Row>, items: seq<Resource>) {
    |items| == |page| && forall i :: 0 <= i < |page| ==> IsShown(page[i], items[i])
  }

  /** There is a token exactly if the page does not hold all there is, and it decodes to the cursor of its
      last row, as far as a token can. */
  predicate LeadsOn(out: seq<Row>, limit: int, next: Str) {
    && (next == [] <==> limit <= 0 || |out| <= limit)
    && (next != [] ==> DecodeToken(next) == Ok(Some(Resume(CursorOf(out[limit - 1].key)))))
  }
}
