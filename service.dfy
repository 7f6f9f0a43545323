/** The use-case layer: a service that validates requests, gives new records
    their id, guards the bounds of a summary, and hands everything else to the
    store, passing the store's results and errors back unchanged. */
module UseCase {
  import opened Wrappers
  import opened Domain
  import Uuid
  import MonthDate
  import Validation
  import Repository

  const RangeRequired: string := "start and end are required"
  const EndAfterStart: string := "end must be after start"

  /** Every stored record passed validation. */
  ghost predicate AllWellFormed(rows: map<Uuid.Uuid, Subscription>) {
    forall id :: id in rows ==> WellFormed(rows[id])
  }

  /** The guards `Summary` applies before it queries: both bounds must be set
      (neither may be the zero instant), and the end must not precede the
      start. A range that passes names at least one month. */
  function RangeCheck(filter: SummaryFilter): (r: Option<Error>)
    ensures r.Some? ==> r.value.kind == InvalidArgument
    ensures r.None? <==>
              && filter.start != MonthDate.Zero && filter.end != MonthDate.Zero
              && MonthDate.Index(filter.start) <= MonthDate.Index(filter.end)
  {
    if filter.start == MonthDate.Zero || filter.end == MonthDate.Zero then
      Some(InvalidArgumentError(RangeRequired))
    else if MonthDate.Before(filter.end, filter.start) then
      Some(InvalidArgumentError(EndAfterStart))
    else None
  }

  /** The missing-bound check comes first: a zero bound is reported as missing
      even when the other bound precedes it; only with both bounds set is an
      inverted range reported as such. */
  lemma RangeCheckOrder(filter: SummaryFilter)
    ensures filter.start == MonthDate.Zero || filter.end == MonthDate.Zero ==>
              RangeCheck(filter) == Some(InvalidArgumentError(RangeRequired))
    ensures filter.start != MonthDate.Zero && filter.end != MonthDate.Zero
            && MonthDate.Before(filter.end, filter.start) ==>
              RangeCheck(filter) == Some(InvalidArgumentError(EndAfterStart))
  {
  }

  /** A range of a single month is forwarded to the store. */
  lemma SingleMonthForwarded(filter: SummaryFilter)
    requires filter.start == filter.end && filter.start != MonthDate.Zero
    ensures RangeCheck(filter).None?
  {
  }

  /** The rows the store reads newest first are stored rows, so they passed
      validation too. */
  lemma NewestWellFormed(rows: map<Uuid.Uuid, Subscription>, order: seq<Uuid.Uuid>)
    requires forall i :: 0 <= i < |order| ==> order[i] in rows
    requires AllWellFormed(rows)
    ensures forall k :: 0 <= k < |Repository.Newest(rows, order)| ==> WellFormed(Repository.Newest(rows, order)[k])
  {
    forall k | 0 <= k < |Repository.Newest(rows, order)| ensures WellFormed(Repository.Newest(rows, order)[k]) {
      Repository.NewestAt(rows, order, k);
    }
  }

  lemma {:induction false} MonthTotalNonNegative(xs: seq<Subscription>, userId: Option<Uuid.Uuid>,
                                                 serviceName: Option<string>, m: MonthDate.YearMonth)
    requires forall k :: 0 <= k < |xs| ==> xs[k].price > 0
    ensures Repository.MonthTotal(xs, userId, serviceName, m) >= 0
  {
    if xs != [] {
      MonthTotalNonNegative(xs[..|xs| - 1], userId, serviceName, m);
    }
  }

  /** With every price positive, no summary is negative. */
  lemma {:induction false} SeriesTotalNonNegative(xs: seq<Subscription>, userId: Option<Uuid.Uuid>,
                                                  serviceName: Option<string>,
                                                  m: MonthDate.YearMonth, end: MonthDate.YearMonth)
    requires 1 <= m.month <= 12
    requires forall k :: 0 <= k < |xs| ==> xs[k].price > 0
    ensures Repository.SeriesTotal(xs, userId, serviceName, m, end) >= 0
    decreases MonthDate.Index(end) - MonthDate.Index(m)
  {
    if !MonthDate.Before(end, m) {
      MonthTotalNonNegative(xs, userId, serviceName, m);
      SeriesTotalNonNegative(xs, userId, serviceName, MonthDate.Next(m), end);
    }
  }

  /** `Service`, over the store it was built with. */
  class Service {
    const repo: Repository.Store

    /** The store is consistent and holds only validated records. */
    ghost predicate Valid()
      reads this, repo
    {
      repo.Valid() && AllWellFormed(repo.rows)
    }

    /** `NewService`. */
    constructor (repo: Repository.Store)
      requires repo.Valid() && AllWellFormed(repo.rows)
      ensures this.repo == repo && Valid()
    {
      this.repo := repo;
    }

    /** Invalid input is the validator's error and the store is not touched;
        valid input is stored under `newId`, the identifier `uuid.New()` draws,
        and the store's reply (the stamped record, or `Duplicate`) is returned
        as it is. */
    method Create(input: SubscriptionInput, newId: Uuid.Uuid) returns (r: Result<Subscription, Error>)
      requires Valid()
      modifies repo
      ensures Valid()
      ensures Validation.ValidateInput(input).Failure? ==>
                r == Failure(Validation.ValidateInput(input).error) && unchanged(repo)
      ensures Validation.ValidateInput(input).Success? ==>
                var sub := Validation.ValidateInput(input).value.(id := newId);
                && (newId in old(repo.rows) ==> r == Failure(ErrDuplicate) && unchanged(repo))
                && (newId !in old(repo.rows) ==>
                      && repo.clock == old(repo.clock) + 1
                      && r == Success(sub.(createdAt := repo.clock, updatedAt := repo.clock))
                      && repo.rows == old(repo.rows)[newId := r.value]
                      && repo.order == old(repo.order) + [newId])
    {
      var v := Validation.ValidateInput(input);
      if v.Failure? {
        return Failure(v.error);
      }
      r := repo.Create(v.value.(id := newId));
    }

    /** The store's row for `id`, or its `NotFound`. */
    function Get(id: Uuid.Uuid): (r: Result<Subscription, Error>)
      requires Valid()
      reads this, repo
      ensures r == repo.Get(id)
      ensures r.Success? ==> WellFormed(r.value) && r.value.id == id
    {
      repo.Get(id)
    }

    /** Input is validated in full again; a valid record takes the id of the
        path and goes to the store, whose reply is returned as it is. Invalid
        input leaves the store untouched. */
    method Update(id: Uuid.Uuid, input: SubscriptionInput) returns (r: Result<Subscription, Error>)
      requires Valid()
      modifies repo
      ensures Valid()
      ensures Validation.ValidateInput(input).Failure? ==>
                r == Failure(Validation.ValidateInput(input).error) && unchanged(repo)
      ensures Validation.ValidateInput(input).Success? ==>
                var sub := Validation.ValidateInput(input).value.(id := id);
                && (id !in old(repo.rows) ==> r == Failure(ErrNotFound) && unchanged(repo))
                && (id in old(repo.rows) ==>
                      && repo.clock == old(repo.clock) + 1
                      && r == Success(sub.(createdAt := old(repo.rows)[id].createdAt, updatedAt := repo.clock))
                      && repo.rows == old(repo.rows)[id := r.value]
                      && repo.order == old(repo.order))
    {
      var v := Validation.ValidateInput(input);
      if v.Failure? {
        return Failure(v.error);
      }
      r := repo.Update(v.value.(id := id));
    }

    /** The store's deletion, its `NotFound` included. */
    method Delete(id: Uuid.Uuid) returns (err: Option<Error>)
      requires Valid()
      modifies repo
      ensures Valid()
      ensures id !in old(repo.rows) ==> err == Some(ErrNotFound) && unchanged(repo)
      ensures id in old(repo.rows) ==>
                && err.None?
                && repo.rows == old(repo.rows) - {id}
                && repo.clock == old(repo.clock)
                && (forall x :: x in repo.order <==> x in old(repo.order) && x != id)
    {
      err := repo.Delete(id);
    }

    /** The store's page for `filter`; every record on it is a validated one. */
    method List(filter: ListFilter) returns (res: seq<Subscription>)
      requires Valid()
      ensures res == Repository.ListResult(repo.rows, repo.order, filter)
      ensures forall x :: x in res ==> WellFormed(x)
    {
      res := repo.List(filter);
      Repository.ListProperties(repo.rows, repo.order, repo.clock, filter);
    }

    /** A range failing the guards is its `InvalidArgument` and the store is not
        queried; otherwise the store's total, which is never negative since
        every stored price is positive. */
    method Summary(filter: SummaryFilter) returns (r: Result<int, Error>)
      requires Valid()
      ensures RangeCheck(filter).Some? ==> r == Failure(RangeCheck(filter).value)
      ensures RangeCheck(filter).None? ==>
                r == Success(Repository.SeriesTotal(Repository.Newest(repo.rows, repo.order),
                                                    filter.userId, filter.serviceName, filter.start, filter.end))
      ensures r.Success? ==> r.value >= 0
    {
      var invalid := RangeCheck(filter);
      if invalid.Some? {
        return Failure(invalid.value);
      }
      var total := repo.Summary(filter);
      NewestWellFormed(repo.rows, repo.order);
      SeriesTotalNonNegative(Repository.Newest(repo.rows, repo.order),
                             filter.userId, filter.serviceName, filter.start, filter.end);
      r := Success(total);
    }
  }

  /** A record created through the service reads back as created, and it is
      the validated input under the new id. */
  method CreateThenGet(svc: Service, input: SubscriptionInput, newId: Uuid.Uuid)
    returns (created: Result<Subscription, Error>, got: Result<Subscription, Error>)
    requires svc.Valid() && newId !in svc.repo.rows
    requires Validation.ValidateInput(input).Success?
    modifies svc.repo
    ensures created.Success? && got == created
    ensures got.value.id == newId && got.value.serviceName == Validation.ValidateInput(input).value.serviceName
  {
    created := svc.Create(input, newId);
    got := svc.Get(newId);
  }
}
