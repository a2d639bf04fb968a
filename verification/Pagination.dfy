/**
 Listing files page by page: `buildFileQuery` and its helpers in pkg/services/file_query_builder.go. A page is
 fetched by the sort value of the row before it (keyset pagination); what is promised is the page by number.
 Rows with the same sort value are taken to come in one fixed order in every query.
 */
module Pagination {
  import opened Numbers
  import opened Sequences

  /** A sort value; a column may be null (a folder has no size). */
  datatype Key = Null | Value(value: int)

  datatype Row = Row(id: int, key: Key)

  datatype Order = Asc | Desc | Unset

  datatype Direction = Ascending | Descending

  datatype Op = AtLeast | AtMost | Above | Below

  datatype Query = Query(page: int, limit: int, order: Order)

  function ValidOrderDirection(order: Order): Direction {
    match order
    case Asc => Ascending
    case Desc => Descending
    case Unset => Descending
  }

  function OrderOperation(q: Query): Op {
    if q.page == 1 then (if q.order.Asc? then AtLeast else AtMost)
    else (if q.order.Asc? then Above else Below)
  }

  /** ORDER BY: nulls come last in ascending order and first in descending order. */
  predicate Before(d: Direction, a: Key, b: Key) {
    match d
    case Ascending => a.Value? && (b.Null? || a.value < b.value)
    case Descending => b.Value? && (a.Null? || a.value > b.value)
  }

  /** A comparison with a null is not true. */
  predicate Compares(op: Op, a: Key, b: Key) {
    && a.Value? && b.Value?
    && match op
       case AtLeast => a.value >= b.value
       case AtMost => a.value <= b.value
       case Above => a.value > b.value
       case Below => a.value < b.value
  }

  /** The rows that match the filters, by rank. */
  ghost predicate Sorted(d: Direction, rows: seq<Row>) {
    forall i, j :: 0 <= i < j < |rows| ==> !Before(d, rows[j].key, rows[i].key)
  }

  /**
   What that comes to: in ascending order values do not fall and nulls are last, in any other they do not rise and
   nulls are first.
   */
  lemma SortedIs(rows: seq<Row>, order: Order)
    ensures Sorted(ValidOrderDirection(order), rows) <==>
              forall i, j :: 0 <= i < j < |rows| ==>
                if order == Asc then
                  rows[j].key.Null? || (rows[i].key.Value? && rows[i].key.value <= rows[j].key.value)
                else
                  rows[i].key.Null? || (rows[j].key.Value? && rows[i].key.value >= rows[j].key.value)
  {
  }

  function Filter(rows: seq<Row>, op: Op, anchor: Key): seq<Row> {
    if rows == [] then []
    else (if Compares(op, rows[0].key, anchor) then [rows[0]] else []) + Filter(rows[1..], op, anchor)
  }

  function AnchorRank(q: Query): int {
    var r := (q.page - 1) * q.limit;
    if r > 1 then r else 1
  }

  /** The scalar subquery for the sort value of the anchor row: null when there is no row of that rank. */
  function Anchor(rows: seq<Row>, q: Query): Key {
    var rank := AnchorRank(q);
    if rank <= |rows| then rows[rank - 1].key else Null
  }

  /** The page as the query fetches it. */
  function Page(rows: seq<Row>, q: Query): seq<Row>
    requires q.limit >= 1
  {
    var selected := Filter(rows, OrderOperation(q), Anchor(rows, q));
    selected[..Min(q.limit, |selected|)]
  }

  /** The page by its number: ranks (page - 1) * limit + 1 to page * limit. */
  function Window(rows: seq<Row>, page: int, limit: int): seq<Row>
    requires page >= 1 && limit >= 1
  {
    var from := (page - 1) * limit;
    PageStart(page, limit);
    rows[Min(from, |rows|)..Min(from + limit, |rows|)]
  }

  lemma PageStart(page: int, limit: int)
    requires page >= 1 && limit >= 1
    ensures (page - 1) * limit >= 0 && (page > 1 ==> (page - 1) * limit >= 1)
  {
  }

  lemma {:induction false} FilterConcat(a: seq<Row>, b: seq<Row>, op: Op, anchor: Key)
    ensures Filter(a + b, op, anchor) == Filter(a, op, anchor) + Filter(b, op, anchor)
  {
    if a == [] {
      assert a + b == b;
    } else {
      hide Compares;
      assert (a + b)[1..] == a[1..] + b;
      FilterConcat(a[1..], b, op, anchor);
      var first := if Compares(op, a[0].key, anchor) then [a[0]] else [];
      ConcatAssociates(first, Filter(a[1..], op, anchor), Filter(b, op, anchor));
    }
  }

  lemma {:induction false} FilterAll(rows: seq<Row>, op: Op, anchor: Key)
    requires forall i :: 0 <= i < |rows| ==> Compares(op, rows[i].key, anchor)
    ensures Filter(rows, op, anchor) == rows
  {
    if rows != [] {
      FilterAll(rows[1..], op, anchor);
    }
  }

  lemma {:induction false} FilterNone(rows: seq<Row>, op: Op, anchor: Key)
    requires forall i :: 0 <= i < |rows| ==> !Compares(op, rows[i].key, anchor)
    ensures Filter(rows, op, anchor) == []
  {
    if rows != [] {
      FilterNone(rows[1..], op, anchor);
    }
  }

  lemma {:induction false} FilterHolds(rows: seq<Row>, op: Op, anchor: Key)
    ensures forall r :: r in Filter(rows, op, anchor) ==> Compares(op, r.key, anchor)
  {
    if rows != [] {
      FilterHolds(rows[1..], op, anchor);
    }
  }

  /** Rows that do not pass, then rows that do, then the rest: the passing ones come first in the result. */
  lemma FilterMiddle(rows: seq<Row>, op: Op, anchor: Key, from: nat, to: nat)
    requires from <= to <= |rows|
    requires forall i :: 0 <= i < from ==> !Compares(op, rows[i].key, anchor)
    requires forall i :: from <= i < to ==> Compares(op, rows[i].key, anchor)
    ensures rows[from..to] <= Filter(rows, op, anchor)
    ensures to == |rows| ==> Filter(rows, op, anchor) == rows[from..to]
  {
    assert rows == rows[..from] + (rows[from..to] + rows[to..]);
    FilterConcat(rows[..from], rows[from..to] + rows[to..], op, anchor);
    FilterConcat(rows[from..to], rows[to..], op, anchor);
    FilterNone(rows[..from], op, anchor);
    FilterAll(rows[from..to], op, anchor);
  }

  /** The comparisons are those of the sort order, on values. */
  lemma ComparesIsOrder(q: Query, a: Key, anchor: Key)
    ensures var d := ValidOrderDirection(q.order);
            Compares(OrderOperation(q), a, anchor) <==>
              a.Value? && anchor.Value? && if q.page == 1 then !Before(d, a, anchor) else Before(d, anchor, a)
  {
  }

  /**
   What it takes for the fetched page to be the page of that number: unless that is empty, its rows and the anchor
   have sort values, and the anchor's value does not go on into the page.
   */
  ghost predicate Seamless(rows: seq<Row>, q: Query)
    requires q.page >= 1 && q.limit >= 1
  {
    var window := Window(rows, q.page, q.limit);
    window == []
    || (&& Anchor(rows, q).Value?
        && (forall i :: 0 <= i < |window| ==> window[i].key.Value?)
        && (q.page > 1 ==> Anchor(rows, q) != window[0].key))
  }

  lemma SeamlessPage(rows: seq<Row>, q: Query)
    requires q.page >= 1 && q.limit >= 1 && Sorted(ValidOrderDirection(q.order), rows)
    requires Seamless(rows, q) && Window(rows, q.page, q.limit) != []
    ensures Page(rows, q) == Window(rows, q.page, q.limit)
  {
    PageStart(q.page, q.limit);
    var from := (q.page - 1) * q.limit;
    var to := Min(from + q.limit, |rows|);
    var window := Window(rows, q.page, q.limit);
    assert window == rows[from..to] && window[0] == rows[from];
    var op, anchor := OrderOperation(q), Anchor(rows, q);
    forall i | 0 <= i < |rows| ensures i < from ==> !Compares(op, rows[i].key, anchor) {
      ComparesIsOrder(q, rows[i].key, anchor);
    }
    forall i | from <= i < to ensures Compares(op, rows[i].key, anchor) {
      ComparesIsOrder(q, rows[i].key, anchor);
      assert rows[i] == window[i - from];
    }
    FilterMiddle(rows, op, anchor, from, to);
    var selected := Filter(rows, op, anchor);
    if to < |rows| {
      assert selected[..q.limit] == rows[from..to];
    }
  }

  lemma EmptyWindow(rows: seq<Row>, q: Query)
    requires q.page >= 1 && q.limit >= 1 && Sorted(ValidOrderDirection(q.order), rows)
    requires Window(rows, q.page, q.limit) == []
    ensures Page(rows, q) == []
  {
    PageStart(q.page, q.limit);
    var op, anchor := OrderOperation(q), Anchor(rows, q);
    forall i | 0 <= i < |rows| ensures !Compares(op, rows[i].key, anchor) {
      ComparesIsOrder(q, rows[i].key, anchor);
    }
    FilterNone(rows, op, anchor);
  }

  /** The query fetches the page of that number if and only if the page is seamless. */
  lemma PageIsWindow(rows: seq<Row>, q: Query)
    requires q.page >= 1 && q.limit >= 1 && Sorted(ValidOrderDirection(q.order), rows)
    ensures Page(rows, q) == Window(rows, q.page, q.limit) <==> Seamless(rows, q)
  {
    var window := Window(rows, q.page, q.limit);
    if window == [] {
      EmptyWindow(rows, q);
    } else if Seamless(rows, q) {
      SeamlessPage(rows, q);
    } else {
      var i := LostRow(rows, q);
      FilterHolds(rows, OrderOperation(q), Anchor(rows, q));
      assert forall r :: r in Page(rows, q) ==> Compares(OrderOperation(q), r.key, Anchor(rows, q));
      assert window[i] in window && window[i] !in Page(rows, q);
    }
  }

  /** A page with a seam holds a row that the query does not select. */
  lemma LostRow(rows: seq<Row>, q: Query) returns (i: nat)
    requires q.page >= 1 && q.limit >= 1 && !Seamless(rows, q)
    ensures var window := Window(rows, q.page, q.limit);
            i < |window| && !Compares(OrderOperation(q), window[i].key, Anchor(rows, q))
  {
    var window := Window(rows, q.page, q.limit);
    if k :| 0 <= k < |window| && window[k].key.Null? {
      i := k;
    } else {
      i := 0;
    }
  }

  /** A concrete listing that loses a row: two files of one name, a page each. */
  lemma TieLosesRow()
    ensures var rows, q := [Row(1, Value(7)), Row(2, Value(7))], Query(2, 1, Asc);
            Sorted(Ascending, rows) && Page(rows, q) == [] && Window(rows, q.page, q.limit) == [Row(2, Value(7))]
  {
    var rows, q := [Row(1, Value(7)), Row(2, Value(7))], Query(2, 1, Asc);
    FilterNone(rows, OrderOperation(q), Anchor(rows, q));
  }

  ghost predicate DistinctValues(rows: seq<Row>) {
    && (forall i :: 0 <= i < |rows| ==> rows[i].key.Value?)
    && (forall i, j :: 0 <= i < j < |rows| ==> rows[i].key != rows[j].key)
  }

  /** Where sort values are distinct and not null, every page is the one of its number. */
  lemma DistinctPage(rows: seq<Row>, q: Query)
    requires q.page >= 1 && q.limit >= 1 && Sorted(ValidOrderDirection(q.order), rows) && DistinctValues(rows)
    ensures Page(rows, q) == Window(rows, q.page, q.limit)
  {
    PageIsWindow(rows, q);
    PageStart(q.page, q.limit);
    var from, window := (q.page - 1) * q.limit, Window(rows, q.page, q.limit);
    if window != [] {
      assert window[0] == rows[from];
      assert q.page > 1 ==> AnchorRank(q) == from && Anchor(rows, q) == rows[from - 1].key;
    }
  }

  /**
   In numbers: if the values rise in ascending order and fall in any other, page `p` is the ranks after (p - 1) * limit
   up to p * limit.
   */
  lemma PageOfOrder(rows: seq<Row>, p: nat, limit: nat, order: Order)
    requires p >= 1 && limit >= 1 && forall i :: 0 <= i < |rows| ==> rows[i].key.Value?
    requires forall i, j :: 0 <= i < j < |rows| ==>
               if order == Asc then rows[i].key.value < rows[j].key.value else rows[i].key.value > rows[j].key.value
    ensures (p - 1) * limit >= 0
    ensures var from := (p - 1) * limit;
            Page(rows, Query(p, limit, order))
            == rows[if from < |rows| then from else |rows|..if from + limit < |rows| then from + limit else |rows|]
  {
    PageStart(p, limit);
    DistinctPage(rows, Query(p, limit, order));
  }

  // All the pages.

  /** `TotalPages`: the quotient rounded up. */
  function TotalPages(count: nat, limit: nat): nat
    requires limit >= 1
  {
    (count + limit - 1) / limit
  }

  /** What the response reports, read off the first row it holds. */
  function ReportedCount(rows: seq<Row>, q: Query): nat
    requires q.limit >= 1
  {
    if |Page(rows, q)| > 0 then |rows| else 0
  }

  /** The first `k` pages, one after the other. */
  function Pages(rows: seq<Row>, limit: int, order: Order, k: nat): seq<Row>
    requires limit >= 1
  {
    if k == 0 then [] else Pages(rows, limit, order, k - 1) + Page(rows, Query(k, limit, order))
  }

  lemma {:induction false} PagesArePrefix(rows: seq<Row>, limit: int, order: Order, k: nat)
    requires limit >= 1 && Sorted(ValidOrderDirection(order), rows) && DistinctValues(rows)
    ensures k * limit >= 0 && Pages(rows, limit, order, k) == rows[..Min(k * limit, |rows|)]
  {
    hide Page, Filter, Sorted, DistinctValues;
    if k > 0 {
      PagesArePrefix(rows, limit, order, k - 1);
      DistinctPage(rows, Query(k, limit, order));
      NextPage(rows, limit, k);
    }
  }

  lemma NextPage(rows: seq<Row>, limit: int, k: nat)
    requires limit >= 1 && k > 0
    ensures (k - 1) * limit >= 0 && k * limit >= 0
    ensures rows[..Min((k - 1) * limit, |rows|)] + Window(rows, k, limit) == rows[..Min(k * limit, |rows|)]
  {
    PageStart(k, limit);
    var from := (k - 1) * limit;
    assert k * limit == from + limit;
    var a, b := Min(from, |rows|), Min(from + limit, |rows|);
    assert rows[..a] + rows[a..b] == rows[..b];
  }

  lemma PageAfterLast(rows: seq<Row>, limit: nat, later: nat)
    requires limit >= 1 && later > TotalPages(|rows|, limit)
    ensures Window(rows, later, limit) == []
  {
    var total := TotalPages(|rows|, limit);
    Covers(|rows|, limit, total);
    Grows(total, later - 1, limit);
  }

  /**
   Going through the pages, in either direction: together the pages that are announced are the sorted list, no row
   lost and none twice, and the pages after them are empty.
   */
  lemma PagesAreList(rows: seq<Row>, limit: int, order: Order, later: nat)
    requires limit >= 1 && Sorted(ValidOrderDirection(order), rows) && DistinctValues(rows)
    ensures Pages(rows, limit, order, TotalPages(|rows|, limit)) == rows
    ensures later > TotalPages(|rows|, limit) ==> Page(rows, Query(later, limit, order)) == []
    ensures rows != [] ==> ReportedCount(rows, Query(1, limit, order)) == |rows|
  {
    hide Page, Filter, Sorted, DistinctValues, Pages;
    var total := TotalPages(|rows|, limit);
    Covers(|rows|, limit, total);
    PagesArePrefix(rows, limit, order, total);
    assert rows[..|rows|] == rows;
    if later > total {
      DistinctPage(rows, Query(later, limit, order));
      PageAfterLast(rows, limit, later);
    }
    DistinctPage(rows, Query(1, limit, order));
  }

  /** The number of pages is the least that holds all rows. */
  lemma TotalPagesIs(count: nat, limit: nat)
    requires limit >= 1
    ensures count <= TotalPages(count, limit) * limit < count + limit
  {
    var n := count + limit - 1;
    assert n == (n / limit) * limit + n % limit;
  }

  lemma Covers(count: nat, limit: nat, total: nat)
    requires limit >= 1 && total == (count + limit - 1) / limit
    ensures count <= total * limit
  {
    var n := count + limit - 1;
    assert n == (n / limit) * limit + n % limit;
  }

  lemma Grows(a: nat, b: nat, limit: nat)
    requires a <= b
    ensures a * limit <= b * limit
  {
  }
}
