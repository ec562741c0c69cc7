/**
 The walk a client makes by following `next` from "" (README.md, storage/keyset): each visit
 reads a query off the cursor, the service answers it from the rows it holds by then, and the
 page it is turned into gives the next cursor. Between visits rows may be inserted above the
 cursor, and for some results the store may change in any way. A row here is its id.
 */
module Walk {
  import opened Wrappers
  import opened Bytes
  import opened Keyset
  import SortId
  import Minter
  import Sets
  import opened Division

  /** WHERE id < bound: the rows a query ranges over. */
  ghost function Under(store: set<ID>, bound: ID): set<ID> {
    set x | x in store && Below(x, bound)
  }

  /** ORDER BY id DESC LIMIT limit: the newest of those rows, and all of them when they fit. */
  ghost predicate Answers(q: Query, store: set<ID>, rows: seq<ID>) {
    && Descending(q.bound, rows)
    && |rows| <= q.limit
    && (forall i :: 0 <= i < |rows| ==> rows[i] in store)
    && forall x :: x in Under(store, q.bound) && x !in rows ==>
                     |rows| == q.limit && (rows == [] || Below(x, rows[|rows| - 1]))
  }

  function Itself(id: ID): ID {
    id
  }

  /** One request of the walk: the texts it carried, the query read from them, the rows the
      service held by then and those it answered, and the page they were turned into. */
  datatype Visit = Visit(texts: Texts, query: Query, store: set<ID>, rows: seq<ID>, page: Page<ID>)
  {
    ghost function Rest(): set<ID> {
      Under(store, query.bound)
    }

    function Last(): ID
      requires page.rows != []
    {
      page.rows[|page.rows| - 1]
    }
  }

  /** The visit as the pager and the service's own query make it, whatever rows the service holds. */
  ghost predicate Made(p: Pager, v: Visit) {
    && QueryOf(p, v.texts) == Ok(v.query)
    && Answers(v.query, v.store, v.rows)
    && v.query.limit >= 2 && v.page == PageOf(v.query, v.rows, Itself)
  }

  /** The same over version 7 ids. */
  ghost predicate Serves(p: Pager, v: Visit) {
    Made(p, v) && forall x :: x in v.store ==> SortId.Minted(x)
  }

  /** No row leaves, and those inserted are above the last row of the page just served. */
  ghost predicate InsertedAbove(before: set<ID>, after: set<ID>, last: ID) {
    before <= after && forall x :: x in after && x !in before ==> !Below(x, last)
  }

  /** The next visit carries the cursor of a page that was not the last. */
  ghost predicate Carries(v: Visit, w: Visit) {
    v.page.next != "" && w.texts.cursor == v.page.next && v.page.rows != []
  }

  ghost predicate Follows(v: Visit, w: Visit) {
    Carries(v, w) && InsertedAbove(v.store, w.store, v.Last())
  }

  ghost predicate FollowsAt(visits: seq<Visit>, i: nat)
    requires i + 1 < |visits|
  {
    Follows(visits[i], visits[i + 1])
  }

  ghost predicate IsWalk(p: Pager, visits: seq<Visit>) {
    && (forall i :: 0 <= i < |visits| ==> Serves(p, visits[i]))
    && forall i :: 0 <= i < |visits| - 1 ==> FollowsAt(visits, i)
  }

  ghost predicate Ended(visits: seq<Visit>) {
    visits != [] && visits[|visits| - 1].page.next == ""
  }

  /** The pages of a walk, one after the other. */
  function Pages(visits: seq<Visit>): seq<ID> {
    if visits == [] then [] else visits[0].page.rows + Pages(visits[1..])
  }

  // ---------------------------------------------------------------- one page

  /** The rows answered are rows the pager accepts, so that the page is the one it gives. */
  lemma ServedRowsAreKept(p: Pager, v: Visit)
    requires Serves(p, v)
    ensures Kept(v.query, Ids(v.rows, Itself))
  {
    hide SortId.Minted, Compare, QueryOf;
    assert Ids(v.rows, Itself) == v.rows;
  }

  lemma {:induction false} DescendingPairs(bound: ID, ids: seq<ID>, i: nat, j: nat)
    requires Descending(bound, ids) && i <= j < |ids|
    ensures Below(ids[j], bound) && (i < j ==> Below(ids[j], ids[i]))
  {
    assert InOrder(bound, ids, j);
    if j > 0 {
      DescendingPairs(bound, ids, if i < j then i else j - 1, j - 1);
      BelowTransitive(ids[j], ids[j - 1], bound);
      if i < j - 1 {
        BelowTransitive(ids[j], ids[j - 1], ids[i]);
      }
    }
  }

  lemma LastPage(q: Query, store: set<ID>, rows: seq<ID>)
    requires Answers(q, store, rows) && |rows| < q.limit
    ensures forall x :: x in rows <==> x in Under(store, q.bound)
  {
    hide Compare;
    forall i | 0 <= i < |rows|
      ensures rows[i] in Under(store, q.bound)
    {
      DescendingPairs(q.bound, rows, i, i);
    }
  }

  /** A full page and the rows below its last are exactly the rows below the bound, and at least
      one is left. */
  lemma FullPage(q: Query, store: set<ID>, rows: seq<ID>)
    requires Answers(q, store, rows) && |rows| == q.limit >= 2
    ensures var page, last := rows[..q.limit - 1], rows[q.limit - 2];
            && rows[q.limit - 1] in Under(store, last)
            && (forall x :: x in Under(store, q.bound) <==> x in page || x in Under(store, last))
            && (forall x :: x in page ==> x !in Under(store, last))
  {
    hide Compare;
    var n := q.limit - 1;
    var page, last := rows[..n], rows[n - 1];
    DescendingPairs(q.bound, rows, n - 1, n);
    forall x | x in Under(store, q.bound)
      ensures x in page || x in Under(store, last)
    {
      if x in rows {
        var i :| 0 <= i < |rows| && rows[i] == x;
        assert i < n ==> page[i] == x;
      } else {
        BelowTransitive(x, rows[n], last);
      }
    }
    forall x | x in Under(store, last)
      ensures x in Under(store, q.bound)
    {
      DescendingPairs(q.bound, rows, n - 1, n - 1);
      BelowTransitive(x, last, q.bound);
    }
    forall x | x in page
      ensures x in Under(store, q.bound) && x !in Under(store, last)
    {
      var i :| 0 <= i < n && page[i] == x;
      assert rows[i] == x && rows[i] in store;
      DescendingPairs(q.bound, rows, i, i);
      DescendingPairs(q.bound, rows, i, n - 1);
      BelowIsTotal(x, last);
      BelowIsTotal(last, last);
    }
  }

  /** What one visit serves of the rows under its bound, and what it leaves. */
  ghost predicate Partition(v: Visit, size: int) {
    && Descending(v.query.bound, v.page.rows)
    && |v.page.rows| <= size
    && (v.page.next == "" ==> forall x :: x in v.page.rows <==> x in v.Rest())
    && (v.page.next != "" ==>
          && |v.page.rows| == size >= 1
          && Under(v.store, v.Last()) != {}
          && (forall x :: x in v.Rest() <==> x in v.page.rows || x in Under(v.store, v.Last()))
          && (forall x :: x in v.page.rows ==> x !in Under(v.store, v.Last())))
  }

  lemma PageIsDescending(bound: ID, rows: seq<ID>, n: nat)
    requires Descending(bound, rows) && n <= |rows|
    ensures Descending(bound, rows[..n])
  {
    forall i | 0 <= i < n
      ensures InOrder(bound, rows[..n], i)
    {
      assert InOrder(bound, rows, i);
    }
  }

  lemma OneVisit(p: Pager, v: Visit)
    requires Serves(p, v)
    ensures SizeOf(p, v.texts.size).Some? && v.query.limit == SizeOf(p, v.texts.size).value + 1
    ensures Partition(v, v.query.limit - 1)
  {
    hide SortId.String, SortId.Minted, Compare, SortId.Parse;
    var q, n := v.query, v.query.limit - 1;
    if |v.rows| <= n {
      LastPage(q, v.store, v.rows);
      assert v.page.next == "";
    } else {
      FullPage(q, v.store, v.rows);
      PageIsDescending(q.bound, v.rows, n);
      CursorReadsBack(p, v.texts.size, v.rows[n - 1]);
      assert v.page.next == SortId.String(v.rows[n - 1]) != "";
    }
  }

  lemma NextIsLast(p: Pager, v: Visit)
    requires Serves(p, v) && v.page.next != "" && v.page.rows != []
    ensures v.page.next == SortId.String(v.Last()) && SortId.Minted(v.Last())
  {
    hide SortId.String, SortId.Minted, Compare, QueryOf;
    var n := v.query.limit - 1;
    assert |v.rows| > n;
    var last := v.rows[n - 1];
    assert v.page.rows == v.rows[..n] && v.Last() == last;
    assert last in v.store;
  }

  /** Rows inserted above a row leave what is below it as it was. */
  lemma InsertedAboveKeeps(before: set<ID>, after: set<ID>, last: ID)
    requires InsertedAbove(before, after, last)
    ensures Under(after, last) == Under(before, last)
  {
  }

  /** The next visit reads the last row of the page before it back as its bound. */
  lemma CarriedBound(p: Pager, v: Visit, w: Visit)
    requires Serves(p, v) && Serves(p, w) && Carries(v, w)
    ensures w.query.bound == v.Last()
  {
    hide SortId.String, SortId.Minted, Compare, SortId.Parse;
    var last, size := v.Last(), w.texts.size;
    NextIsLast(p, v);
    assert w.texts == Texts(size, SortId.String(last));
    OneVisit(p, w);
    CursorReadsBack(p, size, last);
  }

  lemma NextBound(p: Pager, v: Visit, w: Visit)
    requires Serves(p, v) && Serves(p, w) && Follows(v, w)
    ensures w.query.bound == v.Last() && w.Rest() == Under(v.store, v.Last())
  {
    CarriedBound(p, v, w);
    InsertedAboveKeeps(v.store, w.store, v.Last());
  }

  // ---------------------------------------------------------------- the whole walk

  lemma {:induction false} SubwalkIsWalk(p: Pager, visits: seq<Visit>)
    requires IsWalk(p, visits) && |visits| > 1
    ensures IsWalk(p, visits[1..]) && Follows(visits[0], visits[1])
    ensures Ended(visits[1..]) <==> Ended(visits)
    ensures visits[0].page.next != "" && visits[1].Rest() == Under(visits[0].store, visits[0].Last())
  {
    hide Serves;
    var rest := visits[1..];
    assert FollowsAt(visits, 0);
    forall i | 0 <= i < |rest| - 1
      ensures FollowsAt(rest, i)
    {
      assert FollowsAt(visits, i + 1);
    }
    NextBound(p, visits[0], visits[1]);
  }

  lemma DescendingJoin(bound: ID, a: seq<ID>, b: seq<ID>)
    requires a != [] && Descending(bound, a) && Descending(a[|a| - 1], b)
    ensures Descending(bound, a + b)
  {
    forall i | 0 <= i < |a + b|
      ensures InOrder(bound, a + b, i)
    {
      if i < |a| {
        assert InOrder(bound, a, i);
      } else {
        assert InOrder(a[|a| - 1], b, i - |a|);
      }
    }
  }

  lemma WalkIsAnyWalk(p: Pager, visits: seq<Visit>)
    requires IsWalk(p, visits)
    ensures IsAnyWalk(p, visits)
  {
    hide Serves;
    forall i | 0 <= i < |visits| - 1
      ensures CarriesAt(visits, i)
    {
      assert FollowsAt(visits, i);
    }
  }

  /** A walk that ended served exactly the rows its first query ranged over, newest first. */
  lemma {:induction false} PagesFromBound(p: Pager, visits: seq<Visit>)
    requires IsWalk(p, visits) && Ended(visits)
    ensures Descending(visits[0].query.bound, Pages(visits))
    ensures forall x :: x in Pages(visits) <==> x in visits[0].Rest()
  {
    hide Serves;
    var v := visits[0];
    WalkIsAnyWalk(p, visits);
    PagesDescend(p, visits);
    OneVisit(p, v);
    if |visits| == 1 {
      assert Pages(visits[1..]) == [] && Pages(visits) == v.page.rows;
    } else {
      SubwalkIsWalk(p, visits);
      PagesFromBound(p, visits[1..]);
    }
  }

  /** A descending sequence holds each of its rows once. */
  lemma DescendingIsDistinct(bound: ID, ids: seq<ID>)
    requires Descending(bound, ids)
    ensures forall i, j :: 0 <= i < j < |ids| ==> ids[i] != ids[j]
  {
    forall i, j | 0 <= i < j < |ids|
      ensures ids[i] != ids[j]
    {
      DescendingPairs(bound, ids, i, j);
      BelowIsTotal(ids[i], ids[i]);
    }
  }

  /**
   Every row held at the first query, each once, newest first, and nothing else: whatever the
   page sizes asked for and whatever is inserted above the cursor between pages.
   */
  lemma WalkServesEveryRowOnce(p: Pager, visits: seq<Visit>)
    requires IsWalk(p, visits) && Ended(visits) && visits[0].texts.cursor == ""
    ensures forall x :: x in Pages(visits) <==> x in visits[0].store
    ensures forall i, j :: 0 <= i < j < |Pages(visits)| ==> Below(Pages(visits)[j], Pages(visits)[i])
    ensures forall i, j :: 0 <= i < j < |Pages(visits)| ==> Pages(visits)[i] != Pages(visits)[j]
  {
    PagesFromBound(p, visits);
    FirstBound(p, visits[0]);
    forall i, j | 0 <= i < j < |Pages(visits)|
      ensures Below(Pages(visits)[j], Pages(visits)[i])
    {
      DescendingPairs(visits[0].query.bound, Pages(visits), i, j);
    }
    DescendingIsDistinct(visits[0].query.bound, Pages(visits));
  }

  /** A first page ranges over every row. */
  lemma FirstBound(p: Pager, v: Visit)
    requires Serves(p, v) && v.texts.cursor == ""
    ensures v.Rest() == v.store
  {
    forall x | x in v.store
      ensures Below(x, ABOVE)
    {
      AboveEveryId(x);
    }
  }

  /** A page that is not the last leaves fewer rows, and at least one. */
  lemma FewerRows(p: Pager, v: Visit, w: Visit)
    requires Serves(p, v) && Serves(p, w) && Follows(v, w)
    ensures 0 < |w.Rest()| < |v.Rest()|
  {
    OneVisit(p, v);
    NextBound(p, v, w);
    var x := v.Last();
    assert x in v.page.rows && x !in w.Rest() && x in v.Rest();
    assert w.Rest() <= v.Rest() - {x};
    Sets.SubsetIsNoLarger(w.Rest(), v.Rest() - {x});
  }

  /** Following next terminates: a walk, ended or not, makes no more visits than there were rows,
      and one visit of no rows. */
  lemma {:induction false} WalkIsBounded(p: Pager, visits: seq<Visit>)
    requires IsWalk(p, visits) && visits != []
    ensures |visits| <= 1 || |visits| <= |visits[0].Rest()|
  {
    hide Serves;
    if |visits| > 1 {
      SubwalkIsWalk(p, visits);
      WalkIsBounded(p, visits[1..]);
      FewerRows(p, visits[0], visits[1]);
    }
  }

  /** A walk that has not ended has a next visit: its cursor is read under any size served. */
  lemma WalkGoesOn(p: Pager, visits: seq<Visit>, size: string)
    requires IsWalk(p, visits) && visits != [] && !Ended(visits) && SizeOf(p, size).Some?
    ensures var v := visits[|visits| - 1];
            v.page.rows != []
            && QueryOf(p, Texts(size, v.page.next)) == Ok(Query(v.Last(), SizeOf(p, size).value + 1))
  {
    var v := visits[|visits| - 1];
    OneVisit(p, v);
    NextIsLast(p, v);
    CursorReadsBack(p, size, v.Last());
  }

  /** At one page size s, a walk over n rows takes max(1, ceil(n / s)) visits. */
  lemma {:induction false} VisitsAtOneSize(p: Pager, visits: seq<Visit>, s: int)
    requires IsWalk(p, visits) && Ended(visits)
    requires forall i :: 0 <= i < |visits| ==> SizeOf(p, visits[i].texts.size) == Some(s)
    ensures |Pages(visits)| <= |visits| * s
    ensures |visits| > 1 ==> |Pages(visits)| > (|visits| - 1) * s
  {
    hide Serves;
    var v := visits[0];
    OneVisit(p, v);
    if |visits| == 1 {
      assert Pages(visits[1..]) == [] && Pages(visits) == v.page.rows;
    } else {
      SubwalkIsWalk(p, visits);
      VisitsAtOneSize(p, visits[1..], s);
      PagesFromBound(p, visits[1..]);
      var x :| x in visits[1].Rest();
      assert x in Pages(visits[1..]);
      OneMore(|visits| - 1, s);
      OneMore(|visits| - 2, s);
    }
  }

  lemma {:induction false} DistinctSize(ids: seq<ID>)
    requires forall i, j :: 0 <= i < j < |ids| ==> ids[i] != ids[j]
    ensures |set x | x in ids| == |ids|
  {
    if ids != [] {
      var n := |ids| - 1;
      var front := ids[..n];
      DistinctSize(front);
      assert ids == front + [ids[n]];
      assert (set x | x in ids) == (set x | x in front) + {ids[n]};
    }
  }

  /** From "" at one page size s, a store of n rows takes max(1, ceil(n / s)) visits. */
  lemma WalkLength(p: Pager, visits: seq<Visit>, s: int)
    requires IsWalk(p, visits) && Ended(visits) && visits[0].texts.cursor == ""
    requires forall i :: 0 <= i < |visits| ==> SizeOf(p, visits[i].texts.size) == Some(s)
    ensures s >= 1 && |visits| == var n := |visits[0].store|; if n == 0 then 1 else (n + s - 1) / s
  {
    hide Serves;
    var n, m := |visits[0].store|, |visits|;
    assert SizeOf(p, visits[0].texts.size) == Some(s);
    SizesServed(p, 0, visits[0].texts.size);
    WalkServesEveryRowOnce(p, visits);
    DistinctSize(Pages(visits));
    assert (set x | x in Pages(visits)) == visits[0].store;
    VisitsAtOneSize(p, visits, s);
    if n > 0 {
      OneMore(m - 1, s);
      DivisionIs(n + s - 1, s, m, n + s - 1 - m * s);
    } else if m > 1 {
      Times(0, m - 1, s);
    }
  }

  // ---------------------------------------------------------------- rows that come and go

  ghost predicate CarriesAt(visits: seq<Visit>, i: nat)
    requires i + 1 < |visits|
  {
    Carries(visits[i], visits[i + 1])
  }

  /** A walk over a store that changes in any way between visits: rows leave, and rows are inserted above
      the cursor or below it. */
  ghost predicate IsAnyWalk(p: Pager, visits: seq<Visit>) {
    && (forall i :: 0 <= i < |visits| ==> Serves(p, visits[i]))
    && forall i :: 0 <= i < |visits| - 1 ==> CarriesAt(visits, i)
  }

  /** The ids a visit answers for: below its bound, and not below the cursor it hands out. */
  ghost predicate Covers(v: Visit, x: ID) {
    Below(x, v.query.bound) && (v.page.next != "" && v.page.rows != [] ==> !Below(x, v.Last()))
  }

  /** A page is the rows held by then of those its visit answers for. */
  lemma PageIsCovered(p: Pager, v: Visit, x: ID)
    requires Serves(p, v)
    ensures x in v.page.rows <==> x in v.store && Covers(v, x)
  {
    hide QueryOf, Compare, SortId.Minted, SortId.String;
    OneVisit(p, v);
    if v.page.next == "" || v.page.rows == [] {
      assert x in v.page.rows <==> x in v.Rest();
    } else {
      LastIsHeld(p, v);
      assert x in v.Rest() <==> x in v.page.rows || x in Under(v.store, v.Last());
    }
  }

  lemma {:induction false} InPages(visits: seq<Visit>, x: ID)
    ensures x in Pages(visits) <==> exists i :: 0 <= i < |visits| && x in visits[i].page.rows
  {
    if visits != [] {
      var rest := visits[1..];
      InPages(rest, x);
      if i :| 0 <= i < |visits| && x in visits[i].page.rows {
        assert i > 0 ==> x in rest[i - 1].page.rows;
      }
      if i :| 0 <= i < |rest| && x in rest[i].page.rows {
        assert x in visits[i + 1].page.rows;
      }
    }
  }

  /** Whatever the store does: a row is served exactly when it was held at a visit that answers for it. */
  lemma ServedIff(p: Pager, visits: seq<Visit>, x: ID)
    requires IsAnyWalk(p, visits)
    ensures x in Pages(visits) <==> exists i :: 0 <= i < |visits| && x in visits[i].store && Covers(visits[i], x)
  {
    hide Serves, Covers;
    InPages(visits, x);
    forall i | 0 <= i < |visits|
      ensures x in visits[i].page.rows <==> x in visits[i].store && Covers(visits[i], x)
    {
      PageIsCovered(p, visits[i], x);
    }
  }

  lemma {:induction false} RestOfAnyWalk(p: Pager, visits: seq<Visit>, k: nat)
    requires IsAnyWalk(p, visits) && k < |visits|
    ensures IsAnyWalk(p, visits[k..]) && (Ended(visits[k..]) <==> Ended(visits))
  {
    hide Serves, Carries;
    var rest := visits[k..];
    forall i | 0 <= i < |rest| - 1
      ensures CarriesAt(rest, i)
    {
      assert CarriesAt(visits, k + i);
    }
  }

  /** Its pages are in order all the same, and no row is served twice. */
  lemma {:induction false} PagesDescend(p: Pager, visits: seq<Visit>)
    requires IsAnyWalk(p, visits) && visits != []
    ensures Descending(visits[0].query.bound, Pages(visits))
  {
    hide Serves;
    var v := visits[0];
    OneVisit(p, v);
    if |visits| == 1 {
      assert Pages(visits[1..]) == [] && Pages(visits) == v.page.rows;
    } else {
      assert CarriesAt(visits, 0);
      RestOfAnyWalk(p, visits, 1);
      PagesDescend(p, visits[1..]);
      CarriedBound(p, v, visits[1]);
      DescendingJoin(v.query.bound, v.page.rows, Pages(visits[1..]));
    }
  }

  /** Every id below the first bound has a visit that answers for it, in a walk that ended. */
  lemma {:induction false} CoveringVisit(p: Pager, visits: seq<Visit>, x: ID) returns (i: nat)
    requires IsAnyWalk(p, visits) && Ended(visits) && Below(x, visits[0].query.bound)
    ensures i < |visits| && Covers(visits[i], x)
  {
    hide Serves, Compare;
    i := 0;
    if |visits| > 1 {
      assert CarriesAt(visits, 0);
      CarriedBound(p, visits[0], visits[1]);
      if Below(x, visits[1].query.bound) {
        RestOfAnyWalk(p, visits, 1);
        i := CoveringVisit(p, visits[1..], x);
        i := i + 1;
      }
    }
  }

  /** Bounds descend, and what one visit answers for no later one does. */
  lemma {:induction false} BoundsDescend(p: Pager, visits: seq<Visit>, i: nat, j: nat, x: ID)
    requires IsAnyWalk(p, visits) && i <= j < |visits| && Below(x, visits[j].query.bound)
    ensures Below(x, visits[i].query.bound) && (i < j ==> !Covers(visits[i], x))
  {
    hide Serves, Compare;
    if i < j {
      assert CarriesAt(visits, j - 1);
      var v := visits[j - 1];
      CarriedBound(p, v, visits[j]);
      LastIsBelow(p, v);
      BelowTransitive(x, v.Last(), v.query.bound);
      if i < j - 1 {
        BoundsDescend(p, visits, i, j - 1, x);
      }
    }
  }

  lemma LastIsBelow(p: Pager, v: Visit)
    requires Serves(p, v) && v.page.rows != []
    ensures Below(v.Last(), v.query.bound)
  {
    PageIsCovered(p, v, v.Last());
  }

  /** No older row is skipped or repeated, whatever else comes and goes: a row held at every visit is
      served, and none is that was held at none. */
  lemma HeldThroughoutIsServed(p: Pager, visits: seq<Visit>, x: ID)
    requires IsAnyWalk(p, visits) && Ended(visits)
    ensures x in Pages(visits) ==> exists i :: 0 <= i < |visits| && x in visits[i].store
    ensures (forall i :: 0 <= i < |visits| ==> x in visits[i].store) ==>
              (x in Pages(visits) <==> Below(x, visits[0].query.bound))
  {
    hide Serves, Compare;
    ServedIff(p, visits, x);
    if Below(x, visits[0].query.bound) {
      var i := CoveringVisit(p, visits, x);
    }
    if i :| 0 <= i < |visits| && x in visits[i].store && Covers(visits[i], x) {
      BoundsDescend(p, visits, 0, i, x);
    }
  }

  /** A row that is there from visit k on, however early it was minted, is served exactly when it is below
      the bound that visit was asked under. */
  lemma EnteringIsServedIff(p: Pager, visits: seq<Visit>, x: ID, k: nat)
    requires IsAnyWalk(p, visits) && Ended(visits) && k < |visits|
    requires forall i :: 0 <= i < |visits| ==> (x in visits[i].store <==> i >= k)
    ensures x in Pages(visits) <==> Below(x, visits[k].query.bound)
  {
    hide Serves, Compare;
    ServedIff(p, visits, x);
    if Below(x, visits[k].query.bound) {
      RestOfAnyWalk(p, visits, k);
      var i := CoveringVisit(p, visits[k..], x);
      assert Covers(visits[k + i], x);
    }
    if i :| 0 <= i < |visits| && x in visits[i].store && Covers(visits[i], x) {
      BoundsDescend(p, visits, k, i, x);
    }
  }

  /** A row that has left by visit k is served exactly when it was below the first bound and not below
      that visit's. */
  lemma LeavingIsServedIff(p: Pager, visits: seq<Visit>, x: ID, k: nat)
    requires IsAnyWalk(p, visits) && Ended(visits) && k < |visits|
    requires forall i :: 0 <= i < |visits| ==> (x in visits[i].store <==> i < k)
    ensures x in Pages(visits) <==> Below(x, visits[0].query.bound) && !Below(x, visits[k].query.bound)
  {
    hide Serves, Compare;
    ServedIff(p, visits, x);
    if Below(x, visits[0].query.bound) && !Below(x, visits[k].query.bound) {
      var i := CoveringVisit(p, visits, x);
      if i >= k {
        BoundsDescend(p, visits, k, i, x);
      }
    }
    if i :| 0 <= i < |visits| && x in visits[i].store && Covers(visits[i], x) {
      BoundsDescend(p, visits, 0, i, x);
      if Below(x, visits[k].query.bound) {
        BoundsDescend(p, visits, i, k, x);
      }
    }
  }

  lemma {:induction false} EveryVisitServes(p: Pager, visits: seq<Visit>)
    requires IsAnyWalk(p, visits) && visits != []
    ensures |visits| <= |Pages(visits)| + 1
  {
    hide Serves;
    if |visits| > 1 {
      assert CarriesAt(visits, 0);
      RestOfAnyWalk(p, visits, 1);
      EveryVisitServes(p, visits[1..]);
    }
  }

  /** And following next terminates: in no more visits than rows that were ever held, and one. */
  lemma AnyWalkIsBounded(p: Pager, visits: seq<Visit>, ever: set<ID>)
    requires IsAnyWalk(p, visits) && visits != [] && forall i :: 0 <= i < |visits| ==> visits[i].store <= ever
    ensures |visits| <= |ever| + 1
  {
    hide Serves;
    var all := Pages(visits);
    EveryVisitServes(p, visits);
    PagesDescend(p, visits);
    DescendingIsDistinct(visits[0].query.bound, all);
    DistinctSize(all);
    forall x | x in all
      ensures x in ever
    {
      ServedIff(p, visits, x);
    }
    Sets.SubsetIsNoLarger((set x | x in all), ever);
  }

  // ---------------------------------------------------------------- a walk there is

  /** The newest of some rows. */
  lemma {:induction false} Newest(rows: set<ID>) returns (x: ID)
    requires rows != {}
    ensures x in rows && forall y :: y in rows ==> y == x || Below(y, x)
  {
    hide Compare;
    x :| x in rows;
    if rows != {x} {
      var rest := rows - {x};
      var y := Newest(rest);
      BelowIsTotal(x, y);
      if Below(x, y) {
        x := y;
      } else {
        forall z | z in rest
          ensures Below(z, x)
        {
          if z != y {
            BelowTransitive(z, y, x);
          }
        }
      }
    }
  }

  /** Every query has an answer. */
  lemma {:induction false} AnswerExists(q: Query, store: set<ID>) returns (rows: seq<ID>)
    requires q.limit >= 0
    ensures Answers(q, store, rows)
    decreases q.limit
  {
    hide Compare;
    var under := Under(store, q.bound);
    rows := [];
    if under != {} && q.limit > 0 {
      var x := Newest(under);
      var rest := AnswerExists(Query(x, q.limit - 1), store);
      rows := [x] + rest;
      assert InOrder(q.bound, [x], 0);
      DescendingJoin(q.bound, [x], rest);
      forall y | y in under && y !in rows
        ensures |rows| == q.limit && Below(y, rows[|rows| - 1])
      {
        assert y in Under(store, x) && y !in rest;
        assert rest != [] ==> rows[|rows| - 1] == rest[|rest| - 1];
      }
    }
  }

  /** Every first request at a served size starts a walk that ends, so what is proved of such walks
      is proved of something: here the one at that size over rows that stay as they are. */
  lemma {:induction false} WalkFrom(p: Pager, t: Texts, store: set<ID>) returns (visits: seq<Visit>)
    requires QueryOf(p, t).Ok? && forall x :: x in store ==> SortId.Minted(x)
    ensures IsWalk(p, visits) && Ended(visits) && visits[0].texts == t
    ensures forall i :: 0 <= i < |visits| ==> visits[i].texts.size == t.size && visits[i].store == store
    decreases |Under(store, QueryOf(p, t).value.bound)|
  {
    hide SortId.String, SortId.Minted, Compare, SortId.Parse, SizeOf;
    var q := QueryOf(p, t).value;
    SizesServed(p, 0, t.size);
    var rows := AnswerExists(q, store);
    var v := Visit(t, q, store, rows, PageOf(q, rows, Itself));
    assert Serves(p, v);
    visits := [v];
    if v.page.next != "" {
      OneVisit(p, v);
      NextIsLast(p, v);
      CursorReadsBack(p, t.size, v.Last());
      var u := Texts(t.size, v.page.next);
      var x := v.Last();
      assert x in v.page.rows && x !in Under(store, x) && x in v.Rest();
      assert Under(store, x) <= v.Rest() - {x};
      Sets.SubsetIsNoLarger(Under(store, x), v.Rest() - {x});
      var rest := WalkFrom(p, u, store);
      assert Follows(v, rest[0]);
      visits := [v] + rest;
      StepBefore(p, v, rest);
    }
  }

  lemma StepBefore(p: Pager, v: Visit, rest: seq<Visit>)
    requires Serves(p, v) && IsWalk(p, rest) && rest != [] && Follows(v, rest[0])
    ensures IsWalk(p, [v] + rest)
  {
    hide Serves, Follows;
    var visits := [v] + rest;
    forall i | 0 <= i < |visits| - 1
      ensures FollowsAt(visits, i)
    {
      if i > 0 {
        assert FollowsAt(rest, i - 1);
      }
    }
  }

  // ---------------------------------------------------------------- rows the minter inserts

  ghost function FirstMinted(minted: seq<ID>, n: nat): set<ID>
    requires n <= |minted|
  {
    set i | 0 <= i < n :: minted[i]
  }

  lemma MintedAbove(readings: seq<nat>, drawn: seq<seq<byte>>, minted: seq<ID>, i: nat, j: nat)
    requires Minter.Record(readings, drawn, minted) && Minter.Ordered(readings)
    requires i < j < |minted|
    ensures Below(minted[i], minted[j])
  {
    Minter.StampsIncrease(readings, i + 1, j + 1, drawn[i], drawn[j]);
  }

  /** The rows added to a store are among those minted from m to n. */
  ghost predicate MintedBetween(minted: seq<ID>, before: set<ID>, after: set<ID>, m: nat, n: nat)
    requires m <= n <= |minted|
  {
    && before <= FirstMinted(minted, m) && before <= after
    && forall x :: x in after && x !in before ==> exists j :: m <= j < n && minted[j] == x
  }

  /** Rows one minter mints while a page is read are inserted above every cursor already written,
      whatever its clock does, and whether the store holds all it minted or some. */
  lemma MintedRowsAreInsertedAbove(readings: seq<nat>, drawn: seq<seq<byte>>, minted: seq<ID>,
                                   before: set<ID>, after: set<ID>, m: nat, n: nat, last: ID)
    requires Minter.Record(readings, drawn, minted) && Minter.Ordered(readings)
    requires m <= n <= |minted| && last in before && MintedBetween(minted, before, after, m, n)
    ensures InsertedAbove(before, after, last) && after <= FirstMinted(minted, n)
  {
    var i :| 0 <= i < m && minted[i] == last;
    forall x | x in after && x !in before
      ensures !Below(x, last)
    {
      var j :| m <= j < n && minted[j] == x;
      MintedAbove(readings, drawn, minted, i, j);
      BelowIsTotal(last, x);
    }
    assert forall k :: 0 <= k < n ==> minted[k] in FirstMinted(minted, n);
    assert forall x :: x in before ==> x in FirstMinted(minted, m);
  }

  /** A row inserted late, minted before a page was read, is above the page's cursor exactly when it was
      minted after the cursor's row. */
  lemma InsertedAboveIff(readings: seq<nat>, drawn: seq<seq<byte>>, minted: seq<ID>,
                         before: set<ID>, after: set<ID>, i: nat)
    requires Minter.Record(readings, drawn, minted) && Minter.Ordered(readings)
    requires i < |minted| && minted[i] in before && before <= after <= FirstMinted(minted, |minted|)
    ensures InsertedAbove(before, after, minted[i]) <==>
            forall j :: 0 <= j < |minted| && minted[j] in after && minted[j] !in before ==> i < j
  {
    forall j | 0 <= j < |minted| && j != i
      ensures Below(minted[j], minted[i]) <==> j < i
    {
      if j < i {
        MintedAbove(readings, drawn, minted, j, i);
      } else {
        MintedAbove(readings, drawn, minted, i, j);
        BelowIsTotal(minted[i], minted[j]);
      }
    }
  }

  ghost predicate GrowsAt(visits: seq<Visit>, minted: seq<ID>, cuts: seq<nat>, i: nat)
    requires |cuts| == |visits| && i + 1 < |visits|
  {
    && cuts[i] <= cuts[i + 1] <= |minted|
    && Carries(visits[i], visits[i + 1])
    && MintedBetween(minted, visits[i].store, visits[i + 1].store, cuts[i], cuts[i + 1])
  }

  /** A walk over what one minter minted: each visit follows the cursor of the one before, and finds the
      rows that one found with some, or all, or none of those minted since. `cuts` says how many ids were
      minted by each visit. */
  ghost predicate WalksOver(p: Pager, visits: seq<Visit>, minted: seq<ID>, cuts: seq<nat>) {
    && |cuts| == |visits| > 0 && cuts[0] <= |minted| && visits[0].store <= FirstMinted(minted, cuts[0])
    && (forall i :: 0 <= i < |visits| ==> Made(p, visits[i]))
    && forall i :: 0 <= i < |visits| - 1 ==> GrowsAt(visits, minted, cuts, i)
  }

  lemma {:induction false} StoreWasMinted(p: Pager, visits: seq<Visit>, minted: seq<ID>, cuts: seq<nat>, i: nat)
    requires WalksOver(p, visits, minted, cuts) && i < |visits|
    ensures cuts[i] <= |minted| && visits[i].store <= FirstMinted(minted, cuts[i])
  {
    hide Made, Carries;
    if i > 0 {
      StoreWasMinted(p, visits, minted, cuts, i - 1);
      assert GrowsAt(visits, minted, cuts, i - 1);
      forall x | x in visits[i].store
        ensures x in FirstMinted(minted, cuts[i])
      {
        if x in visits[i - 1].store {
          var j :| 0 <= j < cuts[i - 1] && minted[j] == x;
        }
      }
    }
  }

  lemma RecordIsMinted(readings: seq<nat>, drawn: seq<seq<byte>>, minted: seq<ID>, k: nat)
    requires Minter.Record(readings, drawn, minted) && k < |minted|
    ensures SortId.Minted(minted[k])
  {
    Minter.StampIsMinted(Minter.LastAfter(readings[..k + 1]), drawn[k]);
  }

  lemma WalkOverMintedIsWalk(p: Pager, visits: seq<Visit>, readings: seq<nat>, drawn: seq<seq<byte>>,
                             minted: seq<ID>, cuts: seq<nat>)
    requires Minter.Record(readings, drawn, minted) && Minter.Ordered(readings)
    requires WalksOver(p, visits, minted, cuts)
    ensures IsWalk(p, visits)
  {
    hide QueryOf, Compare, SortId.Minted, Minter.Stamp, Minter.Record, Minter.Ordered;
    forall i | 0 <= i < |visits|
      ensures Serves(p, visits[i])
    {
      StoreWasMinted(p, visits, minted, cuts, i);
      forall x | x in visits[i].store
        ensures SortId.Minted(x)
      {
        var k :| 0 <= k < cuts[i] && minted[k] == x;
        RecordIsMinted(readings, drawn, minted, k);
      }
    }
    forall i | 0 <= i < |visits| - 1
      ensures FollowsAt(visits, i)
    {
      assert GrowsAt(visits, minted, cuts, i);
      NextIsLast(p, visits[i]);
      LastIsHeld(p, visits[i]);
      MintedRowsAreInsertedAbove(readings, drawn, minted, visits[i].store, visits[i + 1].store, cuts[i], cuts[i + 1],
                                 visits[i].Last());
    }
  }

  lemma LastIsHeld(p: Pager, v: Visit)
    requires Serves(p, v) && v.page.rows != []
    ensures v.Last() in v.store
  {
    hide QueryOf, Compare, SortId.Minted, SortId.String;
    assert v.page.rows <= v.rows;
    assert v.Last() == v.rows[|v.page.rows| - 1];
  }

  /**
   From the minter to the pages: a client following next from "" while the minter goes on minting, under
   any clock that keeps its ids in order and any interleaving of mints and requests, is served exactly
   the rows held at its first request, each once, newest first, within as many requests as those.
   */
  lemma MintedWalkServesEveryRowOnce(p: Pager, visits: seq<Visit>, readings: seq<nat>, drawn: seq<seq<byte>>,
                                     minted: seq<ID>, cuts: seq<nat>)
    requires Minter.Record(readings, drawn, minted) && Minter.Ordered(readings)
    requires WalksOver(p, visits, minted, cuts) && visits[0].texts.cursor == ""
    ensures |visits| <= 1 || |visits| <= |visits[0].store|
    ensures Ended(visits) ==>
              && (forall x :: x in Pages(visits) <==> x in visits[0].store)
              && (forall i, j :: 0 <= i < j < |Pages(visits)| ==> Below(Pages(visits)[j], Pages(visits)[i]))
              && (forall i, j :: 0 <= i < j < |Pages(visits)| ==> Pages(visits)[i] != Pages(visits)[j])
  {
    hide Minter.Record, Minter.Ordered, Serves, GrowsAt;
    WalkOverMintedIsWalk(p, visits, readings, drawn, minted, cuts);
    WalkIsBounded(p, visits);
    FirstBound(p, visits[0]);
    if Ended(visits) {
      WalkServesEveryRowOnce(p, visits);
    }
  }
}
