/** The two pure pieces of the HTTP layer: the mapping from an error to the
    status and fixed message written back, and the projection of a record onto
    the JSON response body. */
module Transport {
  import opened Wrappers
  import opened Domain
  import Strings
  import Uuid
  import MonthDate
  import Validation

  const StatusBadRequest: int := 400
  const StatusNotFound: int := 404
  const StatusConflict: int := 409
  const StatusInternalServerError: int := 500

  /** The status and the body's `error` text. */
  datatype ErrorResponse = ErrorResponse(status: int, message: string)

  /** The sentinels `errors.Is` finds in an error's chain: its own, or none for
      an error that wraps no sentinel. */
  function Wrapped(e: Error): (w: set<ErrorKind>)
    ensures Other !in w
    ensures e.kind != Other ==> w == {e.kind}
    ensures e.kind == Other ==> w == {}
  {
    if e.kind == Other then {} else {e.kind}
  }

  /** The `switch` of `handleError` over what a chain wraps: the cases are tried
      as InvalidArgument, Duplicate, NotFound, and an error wrapping none of
      them is an internal error. */
  function Classify(w: set<ErrorKind>): (r: ErrorResponse)
    ensures r.status in {StatusBadRequest, StatusConflict, StatusNotFound, StatusInternalServerError}
  {
    if InvalidArgument in w then ErrorResponse(StatusBadRequest, "invalid argument")
    else if Duplicate in w then ErrorResponse(StatusConflict, "already exists")
    else if NotFound in w then ErrorResponse(StatusNotFound, "not found")
    else ErrorResponse(StatusInternalServerError, "internal error")
  }

  /** The first case that matches wins, whatever else the chain wraps. */
  lemma ClassifyFirstMatch(w: set<ErrorKind>)
    ensures InvalidArgument in w ==> Classify(w) == ErrorResponse(StatusBadRequest, "invalid argument")
    ensures InvalidArgument !in w && Duplicate in w ==> Classify(w) == ErrorResponse(StatusConflict, "already exists")
    ensures InvalidArgument !in w && Duplicate !in w && NotFound in w ==>
              Classify(w) == ErrorResponse(StatusNotFound, "not found")
    ensures InvalidArgument !in w && Duplicate !in w && NotFound !in w ==>
              Classify(w) == ErrorResponse(StatusInternalServerError, "internal error")
  {
  }

  /** `handleError`. */
  function HandleError(e: Error): (r: ErrorResponse)
    ensures r.message in {"invalid argument", "already exists", "not found", "internal error"}
  {
    Classify(Wrapped(e))
  }

  /** The kind of error a status stands for; every status `HandleError` writes
      names exactly one kind. */
  function KindOf(status: int): ErrorKind {
    if status == StatusBadRequest then InvalidArgument
    else if status == StatusConflict then Duplicate
    else if status == StatusNotFound then NotFound
    else Other
  }

  /** The status recovers the error's kind, and the response depends on the
      kind alone, never on the detail text. */
  lemma HandleErrorByKind(e: Error, f: Error)
    ensures KindOf(HandleError(e).status) == e.kind
    ensures HandleError(e) == HandleError(f) <==> e.kind == f.kind
  {
    assert KindOf(HandleError(f).status) == f.kind;
  }

  /** Each kind's status and message. */
  lemma HandleErrorTable(detail: string)
    ensures HandleError(Error(InvalidArgument, detail)) == ErrorResponse(400, "invalid argument")
    ensures HandleError(Error(Duplicate, detail)) == ErrorResponse(409, "already exists")
    ensures HandleError(Error(NotFound, detail)) == ErrorResponse(404, "not found")
    ensures HandleError(Error(Other, detail)) == ErrorResponse(500, "internal error")
  {
  }

  /** `subscriptionResponse` without its two RFC 3339 timestamps. */
  datatype SubscriptionResponse = SubscriptionResponse(
    id: string,
    serviceName: string,
    price: int,
    userId: string,
    startDate: string,
    endDate: Option<string>)

  /** `domainToResponse`: identifiers in canonical text, months through
      `FormatMonthDate`, and an end date only when the record has one. */
  function DomainToResponse(s: Subscription): (r: SubscriptionResponse)
    ensures r.serviceName == s.serviceName && r.price == s.price
    ensures r.endDate.None? <==> s.endDate.None?
    ensures |r.id| == Uuid.CanonicalLength && |r.userId| == Uuid.CanonicalLength
  {
    SubscriptionResponse(
      Uuid.String(s.id), s.serviceName, s.price, Uuid.String(s.userId),
      MonthDate.Format(s.startDate),
      if s.endDate.Some? then Some(MonthDate.Format(s.endDate.value)) else None)
  }

  /** What a response still says about its record: both identifiers parse back,
      the start parses back unless it is the zero instant (shown as ""), and so
      does the end. */
  lemma ResponseDecodes(s: Subscription)
    ensures var r := DomainToResponse(s);
            && Uuid.Parse(r.id) == Some(s.id) && Uuid.Parse(r.userId) == Some(s.userId)
            && (r.startDate == "" <==> s.startDate == MonthDate.Zero)
            && (s.startDate != MonthDate.Zero ==> MonthDate.Parse(r.startDate) == Success(s.startDate))
            && (s.endDate.Some? && s.endDate.value != MonthDate.Zero ==>
                  MonthDate.Parse(r.endDate.value) == Success(s.endDate.value))
  {
    Uuid.ParseString(s.id);
    Uuid.ParseString(s.userId);
    if s.startDate != MonthDate.Zero {
      MonthDate.ParseFormat(s.startDate);
    }
    if s.endDate.Some? && s.endDate.value != MonthDate.Zero {
      MonthDate.ParseFormat(s.endDate.value);
    }
  }

  /** A validated record whose end is not the zero instant comes back
      unchanged, but for its id and timestamps, when its response is sent as
      the input of a create or update. */
  lemma ResponseRevalidates(s: Subscription)
    requires WellFormed(s) && Strings.TrimSpace(s.serviceName) == s.serviceName
    requires s.endDate.Some? ==> s.endDate.value != MonthDate.Zero
    ensures var r := DomainToResponse(s);
            Validation.ValidateInput(SubscriptionInput(r.serviceName, r.price, r.userId, r.startDate, r.endDate))
            == Success(s.(id := Uuid.Nil, createdAt := 0, updatedAt := 0))
  {
    var r := DomainToResponse(s);
    var input := SubscriptionInput(r.serviceName, r.price, r.userId, r.startDate, r.endDate);
    ResponseDecodes(s);
    if s.endDate.Some? {
      var text := r.endDate.value;
      assert text[2] == '-' && !Strings.IsSpace(text[2]);
      Strings.TrimSpaceEmpty(text);
      assert Validation.EndGiven(input);
    }
    var v := Validation.ValidateInput(input);
    assert v.Success?;
  }

  /** A record may end in the month "01-0001" names when it starts before it,
      in year 0; its end then shows as "", as present but blank. */
  lemma ZeroEndShownBlank(s: Subscription)
    requires s.endDate == Some(MonthDate.Zero)
    ensures DomainToResponse(s).endDate == Some("")
  {
  }
}
