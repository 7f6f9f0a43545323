/** The subscriptions table and the queries the Postgres repository runs on it,
    as an in-memory store: a map from id to row, the ids in the order their rows
    were inserted, and the clock that `NOW()` and the column defaults read. */
module Repository {
  import opened Wrappers
  import opened Domain
  import Uuid
  import MonthDate

  /** The default page size, and the largest page a caller may ask for. */
  const DefaultLimit: int := 20
  const MaxLimit: int := 100

  /** What the table invariants require of the three parts of the store: each
      row is filed under its own id and was stamped by the clock, no later than
      it now reads; `order` lists every stored id, and inserting later means a
      later `created_at`. */
  ghost predicate Consistent(rows: map<Uuid.Uuid, Subscription>, order: seq<Uuid.Uuid>, clock: nat) {
    && (forall id :: id in rows ==> rows[id].id == id)
    && (forall id :: id in rows ==> 0 < rows[id].createdAt <= rows[id].updatedAt <= clock)
    && (forall i :: 0 <= i < |order| ==> order[i] in rows)
    && (forall id :: id in rows ==> id in order)
    && (forall i, j :: 0 <= i < j < |order| ==> rows[order[i]].createdAt < rows[order[j]].createdAt)
  }

  /** Newest first: strictly decreasing `created_at`. */
  predicate NewestFirst(xs: seq<Subscription>) {
    forall i, j :: 0 <= i < j < |xs| ==> xs[i].createdAt > xs[j].createdAt
  }

  /** The rows for `order`, last inserted first; that is `ORDER BY created_at
      DESC` over the whole table. */
  function Newest(rows: map<Uuid.Uuid, Subscription>, order: seq<Uuid.Uuid>): (r: seq<Subscription>)
    requires forall i :: 0 <= i < |order| ==> order[i] in rows
    ensures |r| == |order|
  {
    if order == [] then []
    else [rows[order[|order| - 1]]] + Newest(rows, order[..|order| - 1])
  }

  lemma {:induction false} NewestAt(rows: map<Uuid.Uuid, Subscription>, order: seq<Uuid.Uuid>, k: nat)
    requires forall i :: 0 <= i < |order| ==> order[i] in rows
    requires k < |order|
    ensures Newest(rows, order)[k] == rows[order[|order| - 1 - k]]
  {
    if k > 0 {
      NewestAt(rows, order[..|order| - 1], k - 1);
    }
  }

  /** In a consistent store, the whole table read newest first is exactly the
      stored rows, each once, in strictly decreasing `created_at`. */
  lemma NewestTable(rows: map<Uuid.Uuid, Subscription>, order: seq<Uuid.Uuid>, clock: nat)
    requires Consistent(rows, order, clock)
    ensures NewestFirst(Newest(rows, order))
    ensures forall x :: x in Newest(rows, order) <==> exists id :: id in rows && rows[id] == x
  {
    var n := Newest(rows, order);
    forall k | 0 <= k < |n| ensures n[k] == rows[order[|order| - 1 - k]] {
      NewestAt(rows, order, k);
    }
    forall x | exists id :: id in rows && rows[id] == x
      ensures x in n
    {
      var id :| id in rows && rows[id] == x;
      var i :| 0 <= i < |order| && order[i] == id;
      assert n[|order| - 1 - i] == x;
    }
  }

  /** The SQL `WHERE` on the optional owner and exact service name, keeping the
      order of the rows. */
  function Filter(xs: seq<Subscription>, userId: Option<Uuid.Uuid>, serviceName: Option<string>): (r: seq<Subscription>)
    ensures |r| <= |xs|
  {
    if xs == [] then []
    else
      var last := xs[|xs| - 1];
      Filter(xs[..|xs| - 1], userId, serviceName) + (if Matches(last, userId, serviceName) then [last] else [])
  }

  /** Filtering one more row at the end. */
  lemma FilterSnoc(xs: seq<Subscription>, x: Subscription, userId: Option<Uuid.Uuid>, serviceName: Option<string>)
    ensures Filter(xs + [x], userId, serviceName) ==
            Filter(xs, userId, serviceName) + (if Matches(x, userId, serviceName) then [x] else [])
  {
    assert (xs + [x])[..|xs|] == xs;
  }

  /** Filtering keeps exactly the matching rows. */
  lemma {:induction false} FilterKeeps(xs: seq<Subscription>, userId: Option<Uuid.Uuid>, serviceName: Option<string>)
    ensures forall x :: x in Filter(xs, userId, serviceName) <==> x in xs && Matches(x, userId, serviceName)
  {
    if xs != [] {
      var init, last := xs[..|xs| - 1], xs[|xs| - 1];
      assert xs == init + [last];
      FilterKeeps(init, userId, serviceName);
    }
  }

  /** Filtering keeps the order of the rows it keeps. */
  lemma {:induction false} FilterSorted(xs: seq<Subscription>, userId: Option<Uuid.Uuid>, serviceName: Option<string>)
    requires NewestFirst(xs)
    ensures NewestFirst(Filter(xs, userId, serviceName))
  {
    if xs != [] {
      var init, last := xs[..|xs| - 1], xs[|xs| - 1];
      assert NewestFirst(init);
      FilterSorted(init, userId, serviceName);
      FilterKeeps(init, userId, serviceName);
      var f := Filter(init, userId, serviceName);
      forall k | 0 <= k < |f| ensures f[k].createdAt > last.createdAt {
        assert f[k] in init;
        var i :| 0 <= i < |init| && init[i] == f[k];
        assert xs[i] == init[i];
      }
    }
  }

  /** The page size `List` uses: the request when it lies in 1..100, else 20. */
  function EffectiveLimit(limit: int): (r: nat)
    ensures 1 <= r <= MaxLimit
    ensures 1 <= limit <= MaxLimit ==> r == limit
    ensures (limit <= 0 || limit > MaxLimit) ==> r == DefaultLimit
  {
    if limit <= 0 || limit > MaxLimit then DefaultLimit else limit
  }

  /** The number of rows `List` skips: the request floored at zero. */
  function EffectiveOffset(offset: int): (r: nat)
    ensures offset >= 0 ==> r == offset
    ensures offset < 0 ==> r == 0
  {
    if offset < 0 then 0 else offset
  }

  function Min(a: int, b: int): int {
    if a <= b then a else b
  }

  /** `LIMIT limit OFFSET offset`. */
  function Page(xs: seq<Subscription>, offset: nat, limit: nat): (r: seq<Subscription>)
    ensures |r| <= limit
    ensures offset <= |xs| ==> |r| == Min(limit, |xs| - offset)
  {
    xs[Min(offset, |xs|)..Min(offset + limit, |xs|)]
  }

  /** Appending one row to what is paged adds it to the page exactly when it
      falls inside the window. */
  lemma PageAppend(xs: seq<Subscription>, x: Subscription, offset: nat, limit: nat)
    ensures Page(xs + [x], offset, limit) ==
            if offset <= |xs| < offset + limit then Page(xs, offset, limit) + [x] else Page(xs, offset, limit)
  {
    var ys := xs + [x];
    if offset <= |xs| < offset + limit {
      assert ys[offset..|xs| + 1] == ys[offset..|xs|] + [x];
      assert ys[offset..|xs|] == xs[offset..|xs|];
    } else if |xs| < offset {
    } else {
      assert ys[offset..offset + limit] == xs[offset..offset + limit];
    }
  }

  /** One more row read by the `List` loop: the matching rows grow by it
      exactly when it matches, and the page by it exactly when it also falls
      inside the window. */
  lemma ListStep(xs: seq<Subscription>, x: Subscription, userId: Option<Uuid.Uuid>, serviceName: Option<string>,
                 offset: nat, limit: nat)
    ensures var seen := Filter(xs, userId, serviceName);
            && |Filter(xs + [x], userId, serviceName)| == |seen| + (if Matches(x, userId, serviceName) then 1 else 0)
            && Page(Filter(xs + [x], userId, serviceName), offset, limit) ==
               if Matches(x, userId, serviceName) && offset <= |seen| < offset + limit
               then Page(seen, offset, limit) + [x] else Page(seen, offset, limit)
  {
    FilterSnoc(xs, x, userId, serviceName);
    if Matches(x, userId, serviceName) {
      PageAppend(Filter(xs, userId, serviceName), x, offset, limit);
    }
  }

  /** What `List` returns for a filter: the matching rows, newest first, after
      the effective offset and no more than the effective limit. */
  function ListResult(rows: map<Uuid.Uuid, Subscription>, order: seq<Uuid.Uuid>, filter: ListFilter): seq<Subscription>
    requires forall i :: 0 <= i < |order| ==> order[i] in rows
  {
    Page(Filter(Newest(rows, order), filter.userId, filter.serviceName),
         EffectiveOffset(filter.offset), EffectiveLimit(filter.limit))
  }

  /** A page holds rows of what it pages, in their order. */
  lemma PageOf(xs: seq<Subscription>, offset: nat, limit: nat)
    ensures forall x :: x in Page(xs, offset, limit) ==> x in xs
    ensures NewestFirst(xs) ==> NewestFirst(Page(xs, offset, limit))
  {
    var lo, hi := Min(offset, |xs|), Min(offset + limit, |xs|);
    var p := Page(xs, offset, limit);
    forall x | x in p ensures x in xs {
      var k :| 0 <= k < |p| && p[k] == x;
      assert x == xs[lo + k];
    }
  }

  /** Every listed row is a stored row that matches the filter, the list is
      newest first and no longer than the effective limit. */
  lemma ListProperties(rows: map<Uuid.Uuid, Subscription>, order: seq<Uuid.Uuid>, clock: nat, filter: ListFilter)
    requires Consistent(rows, order, clock)
    ensures var r := ListResult(rows, order, filter);
            && |r| <= EffectiveLimit(filter.limit)
            && NewestFirst(r)
            && (forall x :: x in r ==> Matches(x, filter.userId, filter.serviceName))
            && (forall x :: x in r ==> exists id :: id in rows && rows[id] == x)
  {
    var n := Newest(rows, order);
    NewestTable(rows, order, clock);
    FilterKeeps(n, filter.userId, filter.serviceName);
    FilterSorted(n, filter.userId, filter.serviceName);
    PageOf(Filter(n, filter.userId, filter.serviceName), EffectiveOffset(filter.offset), EffectiveLimit(filter.limit));
  }

  /** With no offset and an effective limit covering every matching row, the
      list is all of them. */
  lemma ListAll(rows: map<Uuid.Uuid, Subscription>, order: seq<Uuid.Uuid>, filter: ListFilter)
    requires forall i :: 0 <= i < |order| ==> order[i] in rows
    ensures var all := Filter(Newest(rows, order), filter.userId, filter.serviceName);
            filter.offset <= 0 && |all| <= EffectiveLimit(filter.limit) ==> ListResult(rows, order, filter) == all
  {
  }

  /** A row counts towards month `m` when it has started by `m` and, if it has
      an end, has not ended before `m`: the join condition `s.start_date <= m.m
      AND (s.end_date IS NULL OR s.end_date >= m.m)`. */
  predicate Active(x: Subscription, m: MonthDate.YearMonth) {
    && !MonthDate.Before(m, x.startDate)
    && (x.endDate.None? || !MonthDate.Before(x.endDate.value, m))
  }

  /** The prices summed for one month of the series. */
  function MonthTotal(xs: seq<Subscription>, userId: Option<Uuid.Uuid>, serviceName: Option<string>,
                      m: MonthDate.YearMonth): int
  {
    if xs == [] then 0
    else
      var last := xs[|xs| - 1];
      MonthTotal(xs[..|xs| - 1], userId, serviceName, m)
      + (if Matches(last, userId, serviceName) && Active(last, m) then last.price else 0)
  }

  /** The query's total: the month totals of every month from `m` to `end`, as
      `generate_series(m, end, interval '1 month')` enumerates them (none when
      `m` is after `end`). */
  function SeriesTotal(xs: seq<Subscription>, userId: Option<Uuid.Uuid>, serviceName: Option<string>,
                       m: MonthDate.YearMonth, end: MonthDate.YearMonth): int
    requires 1 <= m.month <= 12
    decreases MonthDate.Index(end) - MonthDate.Index(m)
  {
    if MonthDate.Before(end, m) then 0
    else MonthTotal(xs, userId, serviceName, m) + SeriesTotal(xs, userId, serviceName, MonthDate.Next(m), end)
  }

  /** How many months from `m` to `end` a row is active in. */
  function ActiveCount(x: Subscription, m: MonthDate.YearMonth, end: MonthDate.YearMonth): nat
    requires 1 <= m.month <= 12
    decreases MonthDate.Index(end) - MonthDate.Index(m)
  {
    if MonthDate.Before(end, m) then 0
    else (if Active(x, m) then 1 else 0) + ActiveCount(x, MonthDate.Next(m), end)
  }

  function Max(a: int, b: int): int {
    if a >= b then a else b
  }

  /** A row is active in the months where its own span and the range overlap:
      from the later of the two starts to the earlier of the two ends. */
  lemma {:induction false} ActiveCountSpan(x: Subscription, m: MonthDate.YearMonth, end: MonthDate.YearMonth)
    requires 1 <= m.month <= 12
    ensures var last := if x.endDate.None? then MonthDate.Index(end)
                        else Min(MonthDate.Index(end), MonthDate.Index(x.endDate.value));
            ActiveCount(x, m, end) == Max(0, last - Max(MonthDate.Index(m), MonthDate.Index(x.startDate)) + 1)
    decreases MonthDate.Index(end) - MonthDate.Index(m)
  {
    if !MonthDate.Before(end, m) {
      ActiveCountSpan(x, MonthDate.Next(m), end);
    }
  }

  /** Each row's share of the total: its price for every month it is active in,
      or nothing when it does not match the filter. */
  function RowsTotal(xs: seq<Subscription>, userId: Option<Uuid.Uuid>, serviceName: Option<string>,
                     m: MonthDate.YearMonth, end: MonthDate.YearMonth): int
    requires 1 <= m.month <= 12
  {
    if xs == [] then 0
    else
      var last := xs[|xs| - 1];
      RowsTotal(xs[..|xs| - 1], userId, serviceName, m, end)
      + (if Matches(last, userId, serviceName) then last.price * ActiveCount(last, m, end) else 0)
  }

  /** Splitting off the first month of the range, row by row. */
  lemma {:induction false} RowsTotalStep(xs: seq<Subscription>, userId: Option<Uuid.Uuid>, serviceName: Option<string>,
                                         m: MonthDate.YearMonth, end: MonthDate.YearMonth)
    requires 1 <= m.month <= 12
    ensures RowsTotal(xs, userId, serviceName, m, end) ==
            if MonthDate.Before(end, m) then 0
            else MonthTotal(xs, userId, serviceName, m) + RowsTotal(xs, userId, serviceName, MonthDate.Next(m), end)
  {
    if xs != [] {
      var last := xs[|xs| - 1];
      RowsTotalStep(xs[..|xs| - 1], userId, serviceName, m, end);
      if !MonthDate.Before(end, m) {
        var a := if Active(last, m) then 1 else 0;
        var b := ActiveCount(last, MonthDate.Next(m), end);
        assert ActiveCount(last, m, end) == a + b;
        Distribute(last.price, a, b);
      }
    }
  }

  lemma Distribute(p: int, a: int, b: int)
    ensures p * (a + b) == p * a + p * b
  {
  }

  /** The two ways of adding up the join agree: month by month, or row by row
      with each row's price times the number of months it is active in. */
  lemma {:induction false} SeriesTotalByRow(xs: seq<Subscription>, userId: Option<Uuid.Uuid>, serviceName: Option<string>,
                                            m: MonthDate.YearMonth, end: MonthDate.YearMonth)
    requires 1 <= m.month <= 12
    ensures SeriesTotal(xs, userId, serviceName, m, end) == RowsTotal(xs, userId, serviceName, m, end)
    decreases MonthDate.Index(end) - MonthDate.Index(m)
  {
    RowsTotalStep(xs, userId, serviceName, m, end);
    if !MonthDate.Before(end, m) {
      SeriesTotalByRow(xs, userId, serviceName, MonthDate.Next(m), end);
    }
  }

  /** No matching row, no total. */
  lemma {:induction false} NoMatchNoTotal(xs: seq<Subscription>, userId: Option<Uuid.Uuid>, serviceName: Option<string>,
                                          m: MonthDate.YearMonth, end: MonthDate.YearMonth)
    requires 1 <= m.month <= 12
    requires forall k :: 0 <= k < |xs| ==> !Matches(xs[k], userId, serviceName)
    ensures RowsTotal(xs, userId, serviceName, m, end) == 0
    ensures SeriesTotal(xs, userId, serviceName, m, end) == 0
  {
    if xs != [] {
      NoMatchNoTotal(xs[..|xs| - 1], userId, serviceName, m, end);
    }
    SeriesTotalByRow(xs, userId, serviceName, m, end);
  }

  /** A price of 100 from January to March 2025 adds up to 300 over January to
      March 2025 and to nothing over April to June 2025. */
  lemma SummaryExample(x: Subscription)
    requires x.price == 100
    requires x.startDate == MonthDate.YearMonth(2025, 1) && x.endDate == Some(MonthDate.YearMonth(2025, 3))
    requires Matches(x, Some(x.userId), None)
    ensures SeriesTotal([x], Some(x.userId), None, MonthDate.YearMonth(2025, 1), MonthDate.YearMonth(2025, 3)) == 300
    ensures SeriesTotal([x], Some(x.userId), None, MonthDate.YearMonth(2025, 4), MonthDate.YearMonth(2025, 6)) == 0
  {
    var jan, mar := MonthDate.YearMonth(2025, 1), MonthDate.YearMonth(2025, 3);
    var apr, jun := MonthDate.YearMonth(2025, 4), MonthDate.YearMonth(2025, 6);
    SeriesTotalByRow([x], Some(x.userId), None, jan, mar);
    SeriesTotalByRow([x], Some(x.userId), None, apr, jun);
    ActiveCountSpan(x, jan, mar);
    ActiveCountSpan(x, apr, jun);
    assert [x][..0] == [];
  }

  /** The clock reading a write stamps: one tick after the last. */
  lemma ConsistentCreate(rows: map<Uuid.Uuid, Subscription>, order: seq<Uuid.Uuid>, clock: nat, s: Subscription)
    requires Consistent(rows, order, clock) && s.id !in rows
    ensures Consistent(rows[s.id := s.(createdAt := clock + 1, updatedAt := clock + 1)], order + [s.id], clock + 1)
  {
    var rows' := rows[s.id := s.(createdAt := clock + 1, updatedAt := clock + 1)];
    var order' := order + [s.id];
    forall i, j | 0 <= i < j < |order'| ensures rows'[order'[i]].createdAt < rows'[order'[j]].createdAt {
      if j == |order| {
        assert order'[i] == order[i] && order[i] != s.id;
      } else {
        assert order'[i] == order[i] && order'[j] == order[j];
        assert order[i] != s.id && order[j] != s.id;
      }
    }
  }

  lemma ConsistentUpdate(rows: map<Uuid.Uuid, Subscription>, order: seq<Uuid.Uuid>, clock: nat, s: Subscription)
    requires Consistent(rows, order, clock) && s.id in rows
    ensures Consistent(rows[s.id := s.(createdAt := rows[s.id].createdAt, updatedAt := clock + 1)], order, clock + 1)
  {
  }

  /** In a consistent store an id sits at one position of `order` only. */
  lemma OrderDistinct(rows: map<Uuid.Uuid, Subscription>, order: seq<Uuid.Uuid>, clock: nat, i: nat, k: nat)
    requires Consistent(rows, order, clock) && i < |order| && k < |order| && i != k
    ensures order[i] != order[k]
  {
    if i < k {
      assert rows[order[i]].createdAt < rows[order[k]].createdAt;
    } else {
      assert rows[order[k]].createdAt < rows[order[i]].createdAt;
    }
  }

  /** `order` with position `k` removed. */
  function Remove(order: seq<Uuid.Uuid>, k: nat): (r: seq<Uuid.Uuid>)
    requires k < |order|
    ensures |r| == |order| - 1
  {
    order[..k] + order[k + 1..]
  }

  lemma RemovedAt(order: seq<Uuid.Uuid>, k: nat, i: nat)
    requires k < |order| && i < |order| - 1
    ensures Remove(order, k)[i] == order[if i < k then i else i + 1]
  {
  }

  lemma DeleteListed(rows: map<Uuid.Uuid, Subscription>, order: seq<Uuid.Uuid>, clock: nat, k: nat)
    requires Consistent(rows, order, clock) && k < |order|
    ensures forall i :: 0 <= i < |order| - 1 ==> Remove(order, k)[i] in rows - {order[k]}
  {
    forall i | 0 <= i < |order| - 1 ensures Remove(order, k)[i] in rows - {order[k]} {
      RemovedAt(order, k, i);
      OrderDistinct(rows, order, clock, if i < k then i else i + 1, k);
    }
  }

  lemma DeleteCovered(rows: map<Uuid.Uuid, Subscription>, order: seq<Uuid.Uuid>, clock: nat, k: nat)
    requires Consistent(rows, order, clock) && k < |order|
    ensures forall x :: x in rows - {order[k]} ==> x in Remove(order, k)
  {
    forall x | x in rows - {order[k]} ensures x in Remove(order, k) {
      var i :| 0 <= i < |order| && order[i] == x;
      RemovedAt(order, k, if i < k then i else i - 1);
    }
  }

  lemma DeleteSorted(rows: map<Uuid.Uuid, Subscription>, order: seq<Uuid.Uuid>, clock: nat, k: nat)
    requires Consistent(rows, order, clock) && k < |order|
    ensures forall i, j :: 0 <= i < j < |order| - 1 ==>
              rows[Remove(order, k)[i]].createdAt < rows[Remove(order, k)[j]].createdAt
  {
    var order' := Remove(order, k);
    forall i, j | 0 <= i < j < |order| - 1 ensures rows[order'[i]].createdAt < rows[order'[j]].createdAt {
      RemovedAt(order, k, i);
      RemovedAt(order, k, j);
      var i0, j0 := if i < k then i else i + 1, if j < k then j else j + 1;
      assert rows[order[i0]].createdAt < rows[order[j0]].createdAt;
    }
  }

  /** Deleting the row at position `k` of `order`, and the id there, keeps the
      store consistent. */
  lemma ConsistentDelete(rows: map<Uuid.Uuid, Subscription>, order: seq<Uuid.Uuid>, clock: nat, k: nat)
    requires Consistent(rows, order, clock) && k < |order|
    ensures Consistent(rows - {order[k]}, Remove(order, k), clock)
  {
    DeleteListed(rows, order, clock, k);
    DeleteCovered(rows, order, clock, k);
    DeleteSorted(rows, order, clock, k);
    var rows' := rows - {order[k]};
    var order' := Remove(order, k);
    forall i, j | 0 <= i < j < |order'| ensures rows'[order'[i]].createdAt < rows'[order'[j]].createdAt {
      assert rows'[order'[i]] == rows[order'[i]] && rows'[order'[j]] == rows[order'[j]];
    }
  }

  /** The table. */
  class Store {
    var rows: map<Uuid.Uuid, Subscription>
    var order: seq<Uuid.Uuid>
    var clock: nat

    ghost predicate Valid()
      reads this
    {
      Consistent(rows, order, clock)
    }

    /** An empty table. */
    constructor ()
      ensures Valid()
      ensures rows == map[] && order == [] && clock == 0
    {
      rows := map[];
      order := [];
      clock := 0;
    }

    /** `INSERT … RETURNING`: an id already stored is a unique violation and
        changes nothing; otherwise the row is stored as given, stamped with a
        fresh clock reading as both `created_at` and `updated_at`. */
    method Create(s: Subscription) returns (r: Result<Subscription, Error>)
      requires Valid()
      modifies this
      ensures Valid()
      ensures s.id in old(rows) ==> r == Failure(ErrDuplicate) && unchanged(this)
      ensures s.id !in old(rows) ==>
                && clock == old(clock) + 1
                && r == Success(s.(createdAt := clock, updatedAt := clock))
                && rows == old(rows)[s.id := r.value]
                && order == old(order) + [s.id]
    {
      if s.id in rows {
        return Failure(ErrDuplicate);
      }
      ConsistentCreate(rows, order, clock, s);
      clock := clock + 1;
      var created := s.(createdAt := clock, updatedAt := clock);
      rows := rows[s.id := created];
      order := order + [s.id];
      r := Success(created);
    }

    /** `SELECT … WHERE id = $1`: the stored row, or `NotFound`. */
    function Get(id: Uuid.Uuid): (r: Result<Subscription, Error>)
      reads this
      ensures r.Failure? <==> id !in rows
      ensures r.Failure? ==> r.error == ErrNotFound
      ensures r.Success? ==> r.value == rows[id]
    {
      if id in rows then Success(rows[id]) else Failure(ErrNotFound)
    }

    /** `UPDATE … SET … updated_at = NOW() WHERE id = $1 RETURNING …`: a missing
        id is `NotFound` and changes nothing; otherwise the row takes the new
        name, price, owner and months, keeps its id and `created_at`, and is
        stamped with a fresh `updated_at`. No other row changes. */
    method Update(s: Subscription) returns (r: Result<Subscription, Error>)
      requires Valid()
      modifies this
      ensures Valid()
      ensures s.id !in old(rows) ==> r == Failure(ErrNotFound) && unchanged(this)
      ensures s.id in old(rows) ==>
                && clock == old(clock) + 1
                && r == Success(s.(createdAt := old(rows)[s.id].createdAt, updatedAt := clock))
                && rows == old(rows)[s.id := r.value]
                && order == old(order)
    {
      if s.id !in rows {
        return Failure(ErrNotFound);
      }
      ConsistentUpdate(rows, order, clock, s);
      clock := clock + 1;
      var updated := s.(createdAt := rows[s.id].createdAt, updatedAt := clock);
      rows := rows[s.id := updated];
      r := Success(updated);
    }

    /** `DELETE … WHERE id = $1`: no row affected is `NotFound`; otherwise that
        row, and only that row, is gone. */
    method Delete(id: Uuid.Uuid) returns (err: Option<Error>)
      requires Valid()
      modifies this
      ensures Valid()
      ensures id !in old(rows) ==> err == Some(ErrNotFound) && unchanged(this)
      ensures id in old(rows) ==>
                && err.None?
                && rows == old(rows) - {id}
                && clock == old(clock)
                && (forall x :: x in order <==> x in old(order) && x != id)
    {
      if id !in rows {
        return Some(ErrNotFound);
      }
      var k :| 0 <= k < |order| && order[k] == id;
      ConsistentDelete(rows, order, clock, k);
      rows := rows - {id};
      order := Remove(order, k);
      err := None;
    }

    /** `SELECT … WHERE … ORDER BY created_at DESC LIMIT $3 OFFSET $4` and the
        loop that collects the rows: the limit and offset are first brought into
        range, then the table read newest first is collected page-wise. */
    method List(filter: ListFilter) returns (res: seq<Subscription>)
      requires Valid()
      ensures res == ListResult(rows, order, filter)
    {
      var limit := filter.limit;
      if limit <= 0 || limit > MaxLimit {
        limit := DefaultLimit;
      }
      var offset := filter.offset;
      if offset < 0 {
        offset := 0;
      }
      res := CollectPage(Newest(rows, order), filter.userId, filter.serviceName, offset, limit);
    }

    /** The month-series query: a cursor starts at the first month and advances
        one month at a time until it passes the last, adding up each month's
        active matching prices; a range that ends before it starts gives 0. */
    method Summary(filter: SummaryFilter) returns (total: int)
      requires Valid()
      ensures total == SeriesTotal(Newest(rows, order), filter.userId, filter.serviceName, filter.start, filter.end)
    {
      var xs := Newest(rows, order);
      var m: MonthDate.YearMonth := filter.start;
      total := 0;
      while !MonthDate.Before(filter.end, m)
        invariant 1 <= m.month <= 12
        invariant total + SeriesTotal(xs, filter.userId, filter.serviceName, m, filter.end)
                  == SeriesTotal(xs, filter.userId, filter.serviceName, filter.start, filter.end)
        decreases MonthDate.Index(filter.end) - MonthDate.Index(m)
      {
        total := total + MonthTotal(xs, filter.userId, filter.serviceName, m);
        m := MonthDate.Next(m);
      }
    }
  }

  /** The loop of `List` over the rows read newest first: each row that matches
      is counted, and appended when its position among the matches falls inside
      the page. */
  method CollectPage(all: seq<Subscription>, userId: Option<Uuid.Uuid>, serviceName: Option<string>,
                     offset: nat, limit: nat) returns (res: seq<Subscription>)
    ensures res == Page(Filter(all, userId, serviceName), offset, limit)
  {
    res := [];
    var matched := 0;
    var j := 0;
    while j < |all|
      invariant 0 <= j <= |all|
      invariant matched == |Filter(all[..j], userId, serviceName)|
      invariant res == Page(Filter(all[..j], userId, serviceName), offset, limit)
    {
      var x := all[j];
      ghost var next := Filter(all[..j + 1], userId, serviceName);
      assert all[..j + 1] == all[..j] + [x];
      ListStep(all[..j], x, userId, serviceName, offset, limit);
      ghost var page' := Page(next, offset, limit);
      if Matches(x, userId, serviceName) {
        if offset <= matched < offset + limit {
          res := res + [x];
        }
        matched := matched + 1;
      }
      assert res == page' && matched == |next|;
      j := j + 1;
    }
    assert all[..j] == all;
  }

  /** Deleting twice: the second `Delete` of the same id is `NotFound`. */
  method DeleteTwice(st: Store, id: Uuid.Uuid) returns (first: Option<Error>, second: Option<Error>)
    requires st.Valid() && id in st.rows
    modifies st
    ensures first.None? && second == Some(ErrNotFound)
  {
    first := st.Delete(id);
    second := st.Delete(id);
  }

  /** Creating and then reading returns the stored row. */
  method CreateThenGet(st: Store, s: Subscription) returns (created: Result<Subscription, Error>, got: Result<Subscription, Error>)
    requires st.Valid() && s.id !in st.rows
    modifies st
    ensures created.Success? && got == created
    ensures got.value.id == s.id && got.value.createdAt == got.value.updatedAt
  {
    created := st.Create(s);
    got := st.Get(s.id);
  }
}
