/**
 * The records the booking service exchanges: openings, user profiles, booking
 * requests, reservations, response statuses and response bodies, with the
 * defaults their schemas declare, and the validation that builds a reservation
 * from a loosely typed payload.
 */
module Schemas {
  import opened Wrappers
  import opened Enums

  /** A naive datetime, as whole seconds from a fixed epoch. */
  type Timestamp = int

  /** A calendar date, as a day number from the same epoch. */
  type Date = int

  const SecondsPerDay: int := 86400

  /** The exceptions the service can raise instead of answering. */
  datatype Raised =
    | KeyError(key: string)
    | ValidationError(fields: set<string>)
    | ZeroDivisionError

  /**
   * A bookable slot. `rankingScore` is transient: a fresh opening carries the
   * default -1 until a search overwrites it.
   */
  datatype Opening = Opening(
    openingId: string,
    startDate: Timestamp,
    endDate: Timestamp,
    country: Country,
    lodgingClass: LodgingClass,
    dayRate: real,
    hotelCompany: HotelCompany,
    rankingScore: real := -1.0)
  {
    /** The stay length: the whole number of days from start to end, rounded down. */
    function DaysCount(): int
    {
      (endDate - startDate) / SecondsPerDay
    }
  }

  /**
   * The stay length is the number of whole days between start and end, rounded
   * toward negative infinity, so it is negative exactly when the end precedes
   * the start.
   */
  lemma DaysCountFloors(o: Opening)
    ensures o.DaysCount() * SecondsPerDay <= o.endDate - o.startDate < (o.DaysCount() + 1) * SecondsPerDay
    ensures o.endDate >= o.startDate <==> o.DaysCount() >= 0
  {
  }

  /** A fresh opening is unranked: its score is the default -1. */
  lemma FreshOpeningUnranked(id: string, start: Timestamp, end: Timestamp, c: Country,
                             lc: LodgingClass, rate: real, hotel: HotelCompany)
    ensures Opening(id, start, end, c, lc, rate, hotel).rankingScore == -1.0
  {
  }

  datatype UserProfile = UserProfile(
    userId: string,
    username: string,
    homeCountry: Country,
    phoneNumber: string,
    email: string)

  datatype BookingRequest = BookingRequest(
    openingId: string,
    user: UserProfile,
    startDate: Timestamp,
    endDate: Timestamp,
    daysCount: int,
    peopleCount: int)

  datatype Reservation = Reservation(
    reservationId: string,
    tripOpening: Opening,
    peopleCount: int,
    user: string,
    homeCountry: Country,
    phoneNumber: string,
    startDate: Date,
    endDate: Date)

  datatype ResponseStatus = Confirmed | NotAvailable | NotFound | Found | Error
  {
    function Value(): string
    {
      match this
      case Confirmed => "confirmed"
      case NotAvailable => "not-available"
      case NotFound => "not-found"
      case Found => "found"
      case Error => "error"
    }
  }

  /** The five statuses have five distinct values. */
  lemma StatusValuesDistinct(a: ResponseStatus, b: ResponseStatus)
    ensures a.Value() == b.Value() <==> a == b
  {
  }

  /** A value echoed back in a search response's parameters. */
  datatype ParamValue = PText(text: string) | PInstant(at: Timestamp) | PReal(r: real) | PInt(n: int)

  /** A search response; its status defaults to FOUND. */
  datatype SearchResponse = SearchResponse(
    resultsCount: int,
    searchParams: map<string, ParamValue>,
    results: seq<Opening>,
    status: ResponseStatus := Found)

  /** A booking response; its message defaults to empty and its details to none. */
  datatype BookingResponse = BookingResponse(
    status: ResponseStatus,
    msg: string := "",
    details: Option<Reservation> := None)

  /** A response to a reservation listing; `reservations` is absent when the service returns none. */
  datatype ReservationsResponse = ReservationsResponse(
    status: ResponseStatus,
    reservations: Option<map<string, Reservation>>)

  /** A per-country count of the inventory; its status defaults to FOUND. */
  datatype CountryCountsResponse = CountryCountsResponse(
    countryCounts: map<Country, nat>,
    totalOpenings: nat,
    status: ResponseStatus := Found)

  /** A value in a loosely typed payload handed to record validation. */
  datatype Field =
    | OpeningDump(opening: Opening)
    | Profile(profile: UserProfile)
    | Text(text: string)
    | CountryMember(country: Country)
    | Instant(at: Timestamp)
    | Integer(n: int)

  type Payload = map<string, Field>

  /** The fields a reservation needs from its payload (its identifier has a default). */
  const ReservationFields: set<string> :=
    {"reservation_id", "trip_opening", "reservation_people_count", "user",
     "home_country", "phone_number", "start_date", "end_date"}

  /** A datetime is accepted for a date field only when it has no time of day. */
  predicate IsWholeDay(f: Field)
  {
    f.Instant? && f.at % SecondsPerDay == 0
  }

  /** Whether the payload's entry for one reservation field validates. */
  predicate Accepts(p: Payload, name: string)
  {
    match name
    case "reservation_id" => name !in p || p[name].Text?
    case "trip_opening" => name in p && p[name].OpeningDump?
    case "reservation_people_count" => name in p && p[name].Integer?
    case "user" => name in p && p[name].Text?
    case "home_country" =>
      name in p && (p[name].CountryMember? || (p[name].Text? && ParseCountry(p[name].text).Some?))
    case "phone_number" => name in p && p[name].Text?
    case "start_date" => name in p && IsWholeDay(p[name])
    case "end_date" => name in p && IsWholeDay(p[name])
    case _ => true
  }

  /** The country a validated home_country entry denotes. */
  function HomeCountry(f: Field): Country
    requires f.CountryMember? || (f.Text? && ParseCountry(f.text).Some?)
  {
    if f.CountryMember? then f.country else ParseCountry(f.text).value
  }

  /**
   * Validation of a payload into a reservation. Keys that are not fields are
   * ignored; an absent reservation_id is generated, here taken as `freshId`; on
   * failure every rejected field is reported.
   */
  function ValidateReservation(p: Payload, freshId: string): (r: Result<Reservation, Raised>)
    ensures r.Success? <==> forall name :: name in ReservationFields ==> Accepts(p, name)
    ensures r.Failure? ==>
      && r.error.ValidationError?
      && r.error.fields != {}
      && (forall name :: name in r.error.fields <==> name in ReservationFields && !Accepts(p, name))
    ensures r.Success? ==>
      && r.value.reservationId == (if "reservation_id" in p then p["reservation_id"].text else freshId)
      && r.value.tripOpening == p["trip_opening"].opening
      && r.value.peopleCount == p["reservation_people_count"].n
      && r.value.user == p["user"].text
      && r.value.homeCountry.Value() == (match p["home_country"]
                                          case CountryMember(c) => c.Value()
                                          case Text(t) => t)
      && r.value.phoneNumber == p["phone_number"].text
      && r.value.startDate * SecondsPerDay == p["start_date"].at
      && r.value.endDate * SecondsPerDay == p["end_date"].at
  {
    var rejected := set name | name in ReservationFields && !Accepts(p, name);
    if rejected != {} then
      Failure(ValidationError(rejected))
    else
      assert forall name :: name in ReservationFields ==> Accepts(p, name) by {
        forall name | name in ReservationFields ensures Accepts(p, name) {
          assert name !in rejected;
        }
      }
      assert Accepts(p, "trip_opening") && Accepts(p, "reservation_people_count") && Accepts(p, "user");
      assert Accepts(p, "home_country") && Accepts(p, "phone_number");
      assert Accepts(p, "start_date") && Accepts(p, "end_date") && Accepts(p, "reservation_id");
      Success(Reservation(
        reservationId := if "reservation_id" in p then p["reservation_id"].text else freshId,
        tripOpening := p["trip_opening"].opening,
        peopleCount := p["reservation_people_count"].n,
        user := p["user"].text,
        homeCountry := HomeCountry(p["home_country"]),
        phoneNumber := p["phone_number"].text,
        startDate := p["start_date"].at / SecondsPerDay,
        endDate := p["end_date"].at / SecondsPerDay))
  }
}
