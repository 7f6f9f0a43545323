/** The validator of the use-case layer: `validateInput` turns the raw fields of
    a request into a Subscription ready for the store, or into an
    `InvalidArgument` error, by a fixed chain of checks in which the first failure
    wins; `validateDomain` holds the last two checks of that chain. */
module Validation {
  import opened Wrappers
  import opened Domain
  import Strings
  import Uuid
  import MonthDate

  const NameTooShort: string := "service_name must be at least 3 characters"
  const PriceNotPositive: string := "price must be positive integer"
  const InvalidUserId: string := "invalid user_id"
  const EndBeforeStart: string := "end_date must be after start_date"
  const UserIdRequired: string := "user_id is required"
  const StartRequired: string := "start_date is required"

  /** An end date counts as given when the pointer is set and its text is not
      blank once trimmed; the text parsed is then the untrimmed one. */
  predicate EndGiven(input: SubscriptionInput) {
    input.endDate.Some? && Strings.TrimSpace(input.endDate.value) != []
  }

  /** `validateDomain`: the owner must not be the nil identifier and the start
      must not be the zero instant, checked in that order. */
  function ValidateDomain(sub: Subscription): (r: Option<Error>)
    ensures r.None? <==> sub.userId != Uuid.Nil && sub.startDate != MonthDate.Zero
    ensures r.Some? ==> r.value.kind == InvalidArgument
  {
    if sub.userId == Uuid.Nil then Some(InvalidArgumentError(UserIdRequired))
    else if sub.startDate == MonthDate.Zero then Some(InvalidArgumentError(StartRequired))
    else None
  }

  /** The optional end date: absent when not given, otherwise the parse of the
      untrimmed text. */
  function ParseEndDate(input: SubscriptionInput): (r: Result<Option<MonthDate.Month>, string>)
    ensures r.Failure? ==> EndGiven(input) && r.error == MonthDate.ParseErrorDetail
    ensures r.Failure? ==> MonthDate.Parse(input.endDate.value).Failure?
    ensures r.Success? ==> (r.value.None? <==> !EndGiven(input))
    ensures r.Success? && r.value.Some? ==> MonthDate.Parse(input.endDate.value) == Success(r.value.value)
  {
    if !EndGiven(input) then Success(None)
    else
      match MonthDate.Parse(input.endDate.value)
      case Failure(e) => Failure(e)
      case Success(d) => Success(Some(d))
  }

  /** What the validator reads from a request before it decides: the trimmed
      name, the price, and the outcomes of parsing the owner, the start and the
      optional end. */
  datatype Fields = Fields(
    name: string,
    price: int,
    userId: Option<Uuid.Uuid>,
    start: Result<MonthDate.Month, string>,
    end: Result<Option<MonthDate.Month>, string>)

  /** The three parses have no effects and never fail to return, so computing
      them before the checks that precede them in Go changes no outcome. */
  function Read(input: SubscriptionInput): Fields {
    Fields(Strings.TrimSpace(input.serviceName), input.price, Uuid.Parse(input.userId),
           MonthDate.Parse(input.startDate), ParseEndDate(input))
  }

  /** The chain of checks of `validateInput` and `validateDomain`, in their
      order, on what was read. A failed month parse is reported with the text
      of the parse error, which is always `MonthDate.ParseErrorDetail`. */
  function Decide(f: Fields): (r: Result<Subscription, Error>)
    ensures r.Failure? ==> r.error.kind == InvalidArgument
    ensures r.Success? ==> WellFormed(r.value)
    ensures r.Success? ==> r.value.id == Uuid.Nil && r.value.createdAt == 0 && r.value.updatedAt == 0
    ensures r.Success? ==> r.value.serviceName == f.name && r.value.price == f.price
    ensures r.Success? ==> f.userId == Some(r.value.userId) && f.start == Success(r.value.startDate)
    ensures r.Success? ==> f.end == Success(r.value.endDate)
  {
    if Strings.ByteLen(f.name) < 3 then Failure(InvalidArgumentError(NameTooShort))
    else if f.price <= 0 then Failure(InvalidArgumentError(PriceNotPositive))
    else if f.userId.None? then Failure(InvalidArgumentError(InvalidUserId))
    else if f.start.Failure? then Failure(InvalidArgumentError(MonthDate.ParseErrorDetail))
    else if f.end.Failure? then Failure(InvalidArgumentError(MonthDate.ParseErrorDetail))
    else if f.end.value.Some? && MonthDate.Before(f.end.value.value, f.start.value) then
      Failure(InvalidArgumentError(EndBeforeStart))
    else
      var sub := Subscription(Uuid.Nil, f.name, f.price, f.userId.value, f.start.value, f.end.value, 0, 0);
      var invalid := ValidateDomain(sub);
      if invalid.Some? then Failure(invalid.value)
      else Success(sub)
  }

  /** `validateInput`. On success the record has the trimmed name, the input's
      price, the parsed owner and months, and a nil id and zero timestamps for
      the service and the store to fill in. */
  function ValidateInput(input: SubscriptionInput): (r: Result<Subscription, Error>)
    ensures r.Failure? ==> r.error.kind == InvalidArgument
    ensures r.Success? ==> WellFormed(r.value)
    ensures r.Success? ==> r.value.id == Uuid.Nil && r.value.createdAt == 0 && r.value.updatedAt == 0
    ensures r.Success? ==> r.value.serviceName == Strings.TrimSpace(input.serviceName)
    ensures r.Success? ==> r.value.price == input.price
    ensures r.Success? ==> Uuid.Parse(input.userId) == Some(r.value.userId)
    ensures r.Success? ==> MonthDate.Parse(input.startDate) == Success(r.value.startDate)
    ensures r.Success? ==> (r.value.endDate.None? <==> !EndGiven(input))
    ensures r.Success? && r.value.endDate.Some? ==>
              MonthDate.Parse(input.endDate.value) == Success(r.value.endDate.value)
  {
    Decide(Read(input))
  }

  /** The stored name is already trimmed: trimming it again changes nothing. */
  lemma ValidatedNameTrimmed(input: SubscriptionInput)
    requires ValidateInput(input).Success?
    ensures Strings.TrimSpace(ValidateInput(input).value.serviceName) == ValidateInput(input).value.serviceName
  {
    Strings.TrimSpaceIdempotent(input.serviceName);
  }

  /** The checks of the chain, in the order they run. */
  datatype Check =
    | NameLength
    | PricePositive
    | UserIdSyntax
    | StartFormat
    | EndFormat
    | EndNotBeforeStart
    | UserIdPresent
    | StartPresent

  /** Where a check stands in the chain, from 0 for the first. */
  function Rank(c: Check): nat {
    match c
    case NameLength => 0
    case PricePositive => 1
    case UserIdSyntax => 2
    case StartFormat => 3
    case EndFormat => 4
    case EndNotBeforeStart => 5
    case UserIdPresent => 6
    case StartPresent => 7
  }

  /** Each check on its own, stated on what was read. */
  predicate Passes(f: Fields, c: Check) {
    match c
    case NameLength => Strings.ByteLen(f.name) >= 3
    case PricePositive => f.price > 0
    case UserIdSyntax => f.userId.Some?
    case StartFormat => f.start.Success?
    case EndFormat => f.end.Success?
    case EndNotBeforeStart =>
      (f.start.Success? && f.end.Success? && f.end.value.Some?) ==> !MonthDate.Before(f.end.value.value, f.start.value)
    case UserIdPresent => f.userId != Some(Uuid.Nil)
    case StartPresent => f.start != Success(MonthDate.Zero)
  }

  /** The detail each check reports when it fails. */
  function Detail(c: Check): string {
    match c
    case NameLength => NameTooShort
    case PricePositive => PriceNotPositive
    case UserIdSyntax => InvalidUserId
    case StartFormat => MonthDate.ParseErrorDetail
    case EndFormat => MonthDate.ParseErrorDetail
    case EndNotBeforeStart => EndBeforeStart
    case UserIdPresent => UserIdRequired
    case StartPresent => StartRequired
  }

  /** `c` fails and every check ahead of it in the chain passes. */
  predicate FirstFailing(f: Fields, c: Check) {
    !Passes(f, c) && forall d :: Rank(d) < Rank(c) ==> Passes(f, d)
  }

  /** The validator is the check chain: it accepts exactly when every check
      passes, and otherwise reports, as an `InvalidArgument`, the detail of the
      first check in the chain that fails. */
  lemma DecideIsFirstFailure(f: Fields)
    ensures Decide(f).Success? <==> forall c :: Passes(f, c)
    ensures forall c :: FirstFailing(f, c) ==> Decide(f) == Failure(InvalidArgumentError(Detail(c)))
  {
    if forall c :: Passes(f, c) {
      assert Passes(f, NameLength) && Passes(f, PricePositive) && Passes(f, UserIdSyntax) && Passes(f, StartFormat);
      assert Passes(f, EndFormat) && Passes(f, EndNotBeforeStart) && Passes(f, UserIdPresent) && Passes(f, StartPresent);
    }
    forall c | FirstFailing(f, c)
      ensures Decide(f) == Failure(InvalidArgumentError(Detail(c)))
    {
      match c
      case NameLength =>
      case PricePositive =>
        assert Rank(NameLength) < Rank(c);
      case UserIdSyntax =>
        assert Rank(NameLength) < Rank(PricePositive) < Rank(c);
      case StartFormat =>
        assert Rank(NameLength) < Rank(PricePositive) < Rank(UserIdSyntax) < Rank(c);
      case EndFormat =>
        assert Rank(NameLength) < Rank(PricePositive) < Rank(UserIdSyntax) < Rank(StartFormat) < Rank(c);
      case EndNotBeforeStart =>
        assert Rank(NameLength) < Rank(PricePositive) < Rank(UserIdSyntax) < Rank(StartFormat) < Rank(EndFormat) < Rank(c);
      case UserIdPresent =>
        assert Rank(NameLength) < Rank(PricePositive) < Rank(UserIdSyntax) < Rank(StartFormat) < Rank(EndFormat)
             < Rank(EndNotBeforeStart) < Rank(c);
      case StartPresent =>
        assert Rank(NameLength) < Rank(PricePositive) < Rank(UserIdSyntax) < Rank(StartFormat) < Rank(EndFormat)
             < Rank(EndNotBeforeStart) < Rank(UserIdPresent) < Rank(c);
    }
  }

  /** Some check fails first whenever one fails at all, so every rejection is
      explained by the chain. */
  lemma {:induction false} FirstFailingExists(f: Fields, c: Check)
    requires !Passes(f, c)
    ensures exists d :: FirstFailing(f, d) && Rank(d) <= Rank(c)
    decreases Rank(c)
  {
    if !FirstFailing(f, c) {
      var d :| Rank(d) < Rank(c) && !Passes(f, d);
      FirstFailingExists(f, d);
    }
  }

  /** The checks ahead of the end date all pass: a long enough name, a positive
      price, an owner that parses and a start that parses. */
  predicate HeadPasses(input: SubscriptionInput) {
    && Strings.ByteLen(Strings.TrimSpace(input.serviceName)) >= 3
    && input.price > 0
    && Uuid.Parse(input.userId).Some?
    && MonthDate.Parse(input.startDate).Success?
  }

  /** A name shorter than three bytes once trimmed is rejected first, whatever
      else the request holds. */
  lemma ShortNameRejected(input: SubscriptionInput)
    requires Strings.ByteLen(Strings.TrimSpace(input.serviceName)) < 3
    ensures ValidateInput(input) == Failure(InvalidArgumentError(NameTooShort))
  {
  }

  /** A price of zero or less is rejected once the name has passed. */
  lemma NonPositivePriceRejected(input: SubscriptionInput)
    requires Strings.ByteLen(Strings.TrimSpace(input.serviceName)) >= 3
    requires input.price <= 0
    ensures ValidateInput(input) == Failure(InvalidArgumentError(PriceNotPositive))
  {
  }

  /** An owner that is no identifier is rejected right after the price. */
  lemma BadUserIdRejected(input: SubscriptionInput)
    requires Strings.ByteLen(Strings.TrimSpace(input.serviceName)) >= 3 && input.price > 0
    requires Uuid.Parse(input.userId).None?
    ensures ValidateInput(input) == Failure(InvalidArgumentError(InvalidUserId))
  {
  }

  /** The nil identifier passes the syntax check and is rejected only by
      `validateDomain`, after the date checks. */
  lemma NilUserIdRejectedLate(input: SubscriptionInput)
    requires HeadPasses(input) && Uuid.Parse(input.userId) == Some(Uuid.Nil)
    requires !EndGiven(input)
    ensures ValidateInput(input) == Failure(InvalidArgumentError(UserIdRequired))
  {
  }

  /** A start of "01-0001" (Go's zero instant) passes the format check and is
      rejected by the last check. */
  lemma ZeroStartRejectedLast(input: SubscriptionInput)
    requires HeadPasses(input) && Uuid.Parse(input.userId).value != Uuid.Nil
    requires input.startDate == "01-0001" && !EndGiven(input)
    ensures ValidateInput(input) == Failure(InvalidArgumentError(StartRequired))
  {
    MonthDate.ParseAccepts();
  }

  /** A given end date is parsed as it is, untrimmed; when that fails the month
      format error is reported. */
  lemma BadEndRejected(input: SubscriptionInput)
    requires HeadPasses(input) && EndGiven(input)
    requires MonthDate.Parse(input.endDate.value).Failure?
    ensures ValidateInput(input) == Failure(InvalidArgumentError(MonthDate.ParseErrorDetail))
  {
  }

  /** An end month before the start month is rejected. */
  lemma EndBeforeStartRejected(input: SubscriptionInput)
    requires HeadPasses(input) && EndGiven(input)
    requires MonthDate.Parse(input.endDate.value).Success?
    requires MonthDate.Before(MonthDate.Parse(input.endDate.value).value, MonthDate.Parse(input.startDate).value)
    ensures ValidateInput(input) == Failure(InvalidArgumentError(EndBeforeStart))
  {
  }

  /** An end in the same month as the start is accepted, and kept. */
  lemma EndEqualStartAccepted(input: SubscriptionInput)
    requires HeadPasses(input) && Uuid.Parse(input.userId).value != Uuid.Nil
    requires MonthDate.Parse(input.startDate).value != MonthDate.Zero
    requires EndGiven(input) && MonthDate.Parse(input.endDate.value) == MonthDate.Parse(input.startDate)
    ensures ValidateInput(input).Success?
    ensures ValidateInput(input).value.endDate == Some(MonthDate.Parse(input.startDate).value)
  {
  }

  /** A missing or blank end date means no end, and the rest is accepted. */
  lemma NoEndAccepted(input: SubscriptionInput)
    requires HeadPasses(input) && Uuid.Parse(input.userId).value != Uuid.Nil
    requires MonthDate.Parse(input.startDate).value != MonthDate.Zero
    requires !EndGiven(input)
    ensures ValidateInput(input).Success? && ValidateInput(input).value.endDate.None?
  {
  }

  /** Names the rules above are about: "ab" and " ab " are too short, "abc" is
      long enough and " abc " is stored as "abc". */
  lemma NameExamples()
    ensures Strings.ByteLen(Strings.TrimSpace("ab")) < 3
    ensures Strings.ByteLen(Strings.TrimSpace(" ab ")) < 3
    ensures Strings.ByteLen(Strings.TrimSpace("abc")) == 3
    ensures Strings.TrimSpace(" abc ") == "abc"
  {
    Strings.TrimSpaceTrimmed("ab");
    Strings.TrimSpaceTrimmed("abc");
    assert Strings.TrimSpace(" ab ") == "ab" by {
      assert " ab "[1..] == "ab ";
      assert "ab "[..2] == "ab";
    }
    assert Strings.TrimSpace(" abc ") == "abc" by {
      assert " abc "[1..] == "abc ";
      assert "abc "[..3] == "abc";
    }
  }

  /** End dates the rules above are about: "  " is blank, so no end is given,
      while " 07-2025" is given and, parsed untrimmed, does not parse. */
  lemma EndDateExamples()
    ensures Strings.TrimSpace("  ") == []
    ensures Strings.TrimSpace(" 07-2025") != [] && MonthDate.Parse(" 07-2025").Failure?
  {
    assert Strings.TrimSpace(" 07-2025") != [] by {
      Strings.TrimSpaceEmpty(" 07-2025");
      assert !Strings.IsSpace(" 07-2025"[1]);
    }
  }
}
