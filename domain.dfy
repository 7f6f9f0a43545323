/** The shared vocabulary: the error sentinels of the domain package, the
    Subscription entity, and the input and filter records of the use-case layer. */
module Domain {
  import opened Wrappers
  import Strings
  import Uuid
  import MonthDate

  /** Which of the domain's sentinel errors an error wraps (`ErrNotFound`,
      `ErrDuplicate`, `ErrInvalidArgument`), or `Other` for one that wraps none,
      such as a database failure. Every error in this code base wraps at most one
      sentinel. */
  datatype ErrorKind = NotFound | Duplicate | InvalidArgument | Other

  /** An error value: its sentinel and the text the wrapping `fmt.Errorf` adds
      after it. */
  datatype Error = Error(kind: ErrorKind, detail: string)

  /** The bare sentinels, as the repository returns them. */
  const ErrNotFound: Error := Error(NotFound, "")
  const ErrDuplicate: Error := Error(Duplicate, "")

  /** `fmt.Errorf("%w: <detail>", domain.ErrInvalidArgument)`. */
  function InvalidArgumentError(detail: string): (e: Error)
    ensures e.kind == InvalidArgument && e.detail == detail
  {
    Error(InvalidArgument, detail)
  }

  /** A reading of the store's clock (`created_at`, `updated_at`); 0 stands for
      the zero `time.Time` a record carries before the store stamps it. */
  type Timestamp = nat

  /** The Subscription entity. */
  datatype Subscription = Subscription(
    id: Uuid.Uuid,
    serviceName: string,
    price: int,
    userId: Uuid.Uuid,
    startDate: MonthDate.Month,
    endDate: Option<MonthDate.Month>,
    createdAt: Timestamp,
    updatedAt: Timestamp)

  /** The entity's invariants: a name of at least three bytes, a positive price,
      a non-nil owner, a non-zero start and an end that does not precede it. */
  predicate WellFormed(s: Subscription) {
    && Strings.ByteLen(s.serviceName) >= 3
    && s.price > 0
    && s.userId != Uuid.Nil
    && s.startDate != MonthDate.Zero
    && (s.endDate.Some? ==> !MonthDate.Before(s.endDate.value, s.startDate))
  }

  /** `SubscriptionInput`: the raw fields of a create or update request; a nil
      `EndDate` pointer is `None`. */
  datatype SubscriptionInput = SubscriptionInput(
    serviceName: string,
    price: int,
    userId: string,
    startDate: string,
    endDate: Option<string>)

  /** `ListFilter`: optional exact-match filters and the requested page. */
  datatype ListFilter = ListFilter(
    userId: Option<Uuid.Uuid>,
    serviceName: Option<string>,
    limit: int,
    offset: int)

  /** `SummaryFilter`: optional exact-match filters and the month range. */
  datatype SummaryFilter = SummaryFilter(
    userId: Option<Uuid.Uuid>,
    serviceName: Option<string>,
    start: MonthDate.Month,
    end: MonthDate.Month)

  /** The SQL `($1::uuid IS NULL OR user_id = $1) AND ($2::text IS NULL OR
      service_name = $2)`, shared by List and Summary. */
  predicate Matches(s: Subscription, userId: Option<Uuid.Uuid>, serviceName: Option<string>) {
    && (userId.None? || s.userId == userId.value)
    && (serviceName.None? || s.serviceName == serviceName.value)
  }
}
