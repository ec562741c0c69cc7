/**
 The keyset pager of storage/keyset/keyset.go: reading a request's texts into a query, and checking
 the rows that query returned.
 */
module Keyset {
  import opened Wrappers
  import opened Bytes
  import opened Decimal
  import SortId

  type ID = SortId.ID

  /** The bound of a walk's first page. */
  const ABOVE: ID := [
    0xff, 0xff, 0xff, 0xff, 0xff, 0xff, 0xff, 0xff,
    0xff, 0xff, 0xff, 0xff, 0xff, 0xff, 0xff, 0xff]

  /** A Pager as New builds it: its zero value is not one. */
  datatype AnyPager = Pager(size: int, largest: int)

  type Pager = p: AnyPager | 1 <= p.size <= p.largest < MAX_INT witness Pager(1, 1)

  datatype WiringError = LargestBelowOne | NoRoomPastThePage | SizeOutside

  function New(size: int, largest: int): (p: Result<Pager, WiringError>)
    requires MIN_INT <= size <= MAX_INT && MIN_INT <= largest <= MAX_INT
    ensures p.Ok? <==> 1 <= size <= largest < MAX_INT
    ensures p.Ok? ==> p.value == Pager(size, largest)
    ensures p.Err? ==> (p.error == NoRoomPastThePage <==> largest == MAX_INT)
  {
    if largest < 1 then Err(LargestBelowOne)
    else if largest == MAX_INT then Err(NoRoomPastThePage)
    else if size < 1 || size > largest then Err(SizeOutside)
    else Ok(Pager(size, largest))
  }

  datatype Texts = Texts(size: string, cursor: string)

  /** Its zero value is `Query(zero id, 0)`, which no Pager hands out. */
  datatype Query = Query(bound: ID, limit: int)

  datatype Refusal = ErrSize | ErrCursor

  // ---------------------------------------------------------------- reading a request

  /** The size texts served, and what each asks for. */
  function SizeOf(p: Pager, text: string): Option<int> {
    if text == "" then Some(p.size)
    else if |text| <= |Itoa(p.largest)| && Digits(text) && 1 <= Value(text) <= p.largest then Some(Value(text))
    else None
  }

  /** `sizeOf`: the width is checked first, then every digit, then what they spell. */
  method ReadSize(p: Pager, text: string) returns (r: Result<int, Refusal>)
    ensures r == if SizeOf(p, text).Some? then Ok(SizeOf(p, text).value) else Err(ErrSize)
  {
    if text == "" {
      return Ok(p.size);
    }
    if |text| > |Itoa(p.largest)| {
      return Err(ErrSize);
    }
    for i := 0 to |text|
      invariant Digits(text[..i])
    {
      if text[i] < '0' || text[i] > '9' {
        assert !IsDigit(text[i]);
        return Err(ErrSize);
      }
      assert text[..i + 1] == text[..i] + [text[i]];
    }
    assert text[..|text|] == text;
    assert IsDigit(text[0]);
    var n := Atoi(text);
    if n.None? || n.value < 1 || n.value > p.largest {
      return Err(ErrSize);
    }
    return Ok(n.value);
  }

  /** The size texts served are the empty one, for the default, and the decimals of 1 to the
      largest, with zeros before them up to the largest's own width. */
  lemma SizeTexts(p: Pager, text: string, n: int)
    ensures SizeOf(p, text) == Some(n) <==>
            if text == "" then n == p.size
            else 1 <= n <= p.largest && |text| <= |Itoa(p.largest)| && exists k: nat :: text == Zeros(k) + Itoa(n)
  {
    if text != "" && SizeOf(p, text) == Some(n) {
      var k := DigitsSpell(text);
    }
    if text != "" && 1 <= n <= p.largest {
      forall k: nat | text == Zeros(k) + Itoa(n)
        ensures Digits(text) && Value(text) == n
      {
        ZerosAreNothing(k, n);
      }
    }
  }

  /** Every size from 1 to the largest is read from its decimal text, and any text read gives one
      of those sizes, so that the limit past the page stays an int. */
  lemma SizesServed(p: Pager, n: int, text: string)
    ensures 1 <= n <= p.largest ==> SizeOf(p, Itoa(n)) == Some(n)
    ensures SizeOf(p, text).Some? ==> 1 <= SizeOf(p, text).value <= p.largest
                                      && SizeOf(p, text).value + 1 <= MAX_INT
  {
    if 1 <= n <= p.largest {
      ItoaReadsBack(n);
      WidthIsMonotone(n, p.largest);
    }
  }

  function QueryOf(p: Pager, t: Texts): Result<Query, Refusal> {
    var size := SizeOf(p, t.size);
    if size.None? then Err(ErrSize)
    else if t.cursor == "" then Ok(Query(ABOVE, size.value + 1))
    else
      var id := SortId.Parse(t.cursor);
      if id.Err? then Err(ErrCursor) else Ok(Query(id.value, size.value + 1))
  }

  /** The requests served: a size that is, and no cursor or a minted id's own text. A size that is not is
      told before a cursor that is not, and a malformed cursor never reads as a first page. */
  lemma QueryIff(p: Pager, t: Texts)
    ensures var r := QueryOf(p, t);
            && (r.Ok? <==> SizeOf(p, t.size).Some?
                           && (t.cursor == "" || exists id: ID :: SortId.Minted(id) && SortId.String(id) == t.cursor))
            && (r == Err(ErrSize) <==> SizeOf(p, t.size).None?)
            && (r.Ok? ==>
                  && r.value.limit == SizeOf(p, t.size).value + 1
                  && (if t.cursor == "" then r.value.bound == ABOVE
                      else SortId.Minted(r.value.bound) && SortId.String(r.value.bound) == t.cursor))
  {
    hide SortId.Parse, SortId.Minted, SortId.String, SizeOf;
    SortId.ParseRange(t.cursor);
  }

  method ReadQuery(p: Pager, t: Texts) returns (r: Result<Query, Refusal>)
    ensures r == QueryOf(p, t)
    ensures r.Ok? ==> 2 <= r.value.limit <= MAX_INT
    ensures r.Ok? <==> SizeOf(p, t.size).Some?
                       && (t.cursor == "" || exists id: ID :: SortId.Minted(id) && SortId.String(id) == t.cursor)
    ensures r == Err(ErrSize) <==> SizeOf(p, t.size).None?
    ensures r.Ok? ==> r.value.limit == SizeOf(p, t.size).value + 1
    ensures r.Ok? && t.cursor == "" ==> r.value.bound == ABOVE
    ensures r.Ok? && t.cursor != "" ==> SortId.Minted(r.value.bound) && SortId.String(r.value.bound) == t.cursor
  {
    hide SortId.Parse, SortId.Minted, SortId.String, SizeOf;
    QueryIff(p, t);
    var size := ReadSize(p, t.size);
    SizesServed(p, 0, t.size);
    if size.Err? {
      return Err(size.error);
    }
    var q := Query(ABOVE, size.value + 1);
    if t.cursor == "" {
      return Ok(q);
    }
    var id := SortId.Parse(t.cursor);
    if id.Err? {
      return Err(ErrCursor);
    }
    return Ok(q.(bound := id.value));
  }

  /** The bound of a first page is above every id but itself, so above every minted one, and is not one. */
  lemma AboveEveryId(id: ID)
    ensures id != ABOVE ==> Below(id, ABOVE)
    ensures SortId.Minted(id) ==> Below(id, ABOVE)
    ensures !SortId.Minted(ABOVE)
  {
    if id != ABOVE {
      TopIsAbove(id, ABOVE);
    }
  }

  // ---------------------------------------------------------------- checking a page

  datatype Breach = NoPager | PastTheLimit | NotBelow(row: nat) | NotVersion7(row: nat)

  datatype Page<R> = Page(rows: seq<R>, next: string)

  /** What row i has to be below: the row before it, or the bound. */
  function Ceiling(bound: ID, ids: seq<ID>, i: nat): ID
    requires i < |ids|
  {
    if i == 0 then bound else ids[i - 1]
  }

  predicate InOrder(bound: ID, ids: seq<ID>, i: nat)
    requires i < |ids|
  {
    Below(ids[i], Ceiling(bound, ids, i))
  }

  /** Strictly descending, the first below the bound. */
  ghost predicate Descending(bound: ID, ids: seq<ID>) {
    forall i :: 0 <= i < |ids| ==> InOrder(bound, ids, i)
  }

  ghost predicate AllMinted(ids: seq<ID>) {
    forall i :: 0 <= i < |ids| ==> SortId.Minted(ids[i])
  }

  /** The rows before n are in order and minted. */
  ghost predicate GoodUpTo(bound: ID, ids: seq<ID>, n: nat)
    requires n <= |ids|
  {
    forall i :: 0 <= i < n ==> InOrder(bound, ids, i) && SortId.Minted(ids[i])
  }

  function Ids<R>(rows: seq<R>, id: R -> ID): (ids: seq<ID>)
    ensures |ids| == |rows|
    ensures forall i :: 0 <= i < |rows| ==> ids[i] == id(rows[i])
  {
    seq(|rows|, i requires 0 <= i < |rows| => id(rows[i]))
  }

  /** The rows that keep what `q` asked for. */
  ghost predicate Kept(q: Query, ids: seq<ID>) {
    2 <= q.limit && |ids| <= q.limit && Descending(q.bound, ids) && AllMinted(ids)
  }

  /** The page of rows that kept what `q` asked for. */
  function PageOf<R>(q: Query, rows: seq<R>, id: R -> ID): Page<R>
    requires 2 <= q.limit
  {
    var size := q.limit - 1;
    if |rows| <= size then Page(rows, "")
    else Page(rows[..size], SortId.String(id(rows[size - 1])))
  }

  /** The pass over the rows, each checked against the one before it: the first breach, if any. */
  method FirstBreach<R>(bound: ID, rows: seq<R>, id: R -> ID) returns (breach: Option<Breach>)
    ensures breach.None? <==> GoodUpTo(bound, Ids(rows, id), |rows|)
    ensures breach.Some? ==>
              && (breach.value.NotBelow? || breach.value.NotVersion7?)
              && var i, ids := breach.value.row, Ids(rows, id);
              && i < |rows| && GoodUpTo(bound, ids, i)
              && (breach.value.NotBelow? <==> !InOrder(bound, ids, i))
              && (breach.value.NotVersion7? ==> !SortId.Minted(ids[i]))
  {
    hide SortId.Minted, SortId.String, Compare;
    ghost var ids := Ids(rows, id);
    var prev := bound;
    for i := 0 to |rows|
      invariant GoodUpTo(bound, ids, i)
      invariant prev == if i == 0 then bound else ids[i - 1]
    {
      var k := id(rows[i]);
      assert k == ids[i];
      if Compare(k, prev) >= 0 {
        return Some(NotBelow(i));
      }
      assert InOrder(bound, ids, i);
      if SortId.MarshalText(k).Err? {
        return Some(NotVersion7(i));
      }
      assert SortId.Minted(ids[i]);
      prev := k;
    }
    return None;
  }

  /**
   `Page`: it accepts exactly the rows that kept what the query asked for, and otherwise names
   the first that did not.
   */
  method ReadPage<R>(q: Query, rows: seq<R>, id: R -> ID) returns (r: Result<Page<R>, Breach>)
    ensures r.Ok? <==> Kept(q, Ids(rows, id))
    ensures r.Ok? ==> r.value == PageOf(q, rows, id)
    ensures r == Err(NoPager) <==> q.limit < 2
    ensures r == Err(PastTheLimit) <==> q.limit >= 2 && |rows| > q.limit
    ensures r.Err? && (r.error.NotBelow? || r.error.NotVersion7?) ==>
              var i, ids := r.error.row, Ids(rows, id);
              i < |rows| && GoodUpTo(q.bound, ids, i)
              && (r.error.NotBelow? <==> !InOrder(q.bound, ids, i))
              && (r.error.NotVersion7? ==> !SortId.Minted(ids[i]))
  {
    hide SortId.Minted, SortId.String, Compare;
    if q.limit < 2 {
      return Err(NoPager);
    }
    if |rows| > q.limit {
      return Err(PastTheLimit);
    }
    var breach := FirstBreach(q.bound, rows, id);
    if breach.Some? {
      return Err(breach.value);
    }
    var size := q.limit - 1;
    if |rows| <= size {
      if |rows| == 0 {
        return Ok(Page([], ""));
      }
      assert rows[..|rows|] == rows;
      return Ok(Page(rows[..|rows|], ""));
    }
    return Ok(Page(rows[..size], SortId.String(id(rows[size - 1]))));
  }

  /** A minted id's text is a cursor, read back as that id for the bound. */
  lemma CursorReadsBack(p: Pager, size: string, id: ID)
    requires SortId.Minted(id) && SizeOf(p, size).Some?
    ensures SortId.String(id) != ""
    ensures QueryOf(p, Texts(size, SortId.String(id))) == Ok(Query(id, SizeOf(p, size).value + 1))
  {
    SortId.StringWidth(id);
    hide SortId.Parse, SortId.Minted, SortId.String, SizeOf;
    SortId.ParseInvertsString(SortId.String(id), id);
  }

  /** The next cursor: "" exactly when no row was left over, and otherwise a text the next request
      is read from, with the page's last row as its bound. */
  lemma NextCursor<R>(p: Pager, size: string, q: Query, rows: seq<R>, id: R -> ID)
    requires Kept(q, Ids(rows, id)) && SizeOf(p, size).Some?
    ensures var page := PageOf(q, rows, id);
            && |page.rows| == (if |rows| < q.limit then |rows| else q.limit - 1)
            && page.rows <= rows
            && (page.next == "" <==> |rows| < q.limit)
            && (page.next != "" ==>
                  page.rows != []
                  && QueryOf(p, Texts(size, page.next))
                     == Ok(Query(id(page.rows[|page.rows| - 1]), SizeOf(p, size).value + 1)))
  {
    hide SortId.String, SortId.Minted, Compare, QueryOf;
    if |rows| == q.limit {
      var last := id(rows[q.limit - 2]);
      assert Ids(rows, id)[q.limit - 2] == last;
      CursorReadsBack(p, size, last);
    }
  }
}
