/**
 * How the booking executor turns a popped opening and a booking request into a
 * reservation: the payload it builds, validated into a reservation record.
 * The payload as written names the opening "vacation_opening" and passes the
 * whole user profile as `user`, so validation always rejects it; the intended
 * payload names the field "trip_opening" and passes the user's identifier.
 */
module Booking {
  import opened Wrappers
  import opened Enums
  import opened Schemas

  /** The reservation payload as the executor builds it. */
  function PayloadAsWritten(o: Opening, req: BookingRequest): Payload
  {
    map[
      "vacation_opening" := OpeningDump(o),
      "user" := Profile(req.user),
      "home_country" := CountryMember(req.user.homeCountry),
      "phone_number" := Text(req.user.phoneNumber),
      "start_date" := Instant(req.startDate),
      "end_date" := Instant(req.endDate),
      "reservation_people_count" := Integer(req.peopleCount)]
  }

  /** Reservation construction as written; `freshId` is the generated reservation identifier. */
  function ConstructAsWritten(o: Opening, req: BookingRequest, freshId: string): Result<Reservation, Raised>
  {
    ValidateReservation(PayloadAsWritten(o, req), freshId)
  }

  /** Construction as written never succeeds: the opening and the user fields are always rejected. */
  lemma AsWrittenNeverValidates(o: Opening, req: BookingRequest, freshId: string)
    ensures ConstructAsWritten(o, req, freshId).Failure?
    ensures ConstructAsWritten(o, req, freshId).error.ValidationError?
    ensures {"trip_opening", "user"} <= ConstructAsWritten(o, req, freshId).error.fields
  {
    var p := PayloadAsWritten(o, req);
    assert !Accepts(p, "trip_opening");
    assert !Accepts(p, "user");
  }

  /** The reservation payload with the field names and types the reservation record declares. */
  function PayloadIntended(o: Opening, req: BookingRequest): Payload
  {
    map[
      "trip_opening" := OpeningDump(o),
      "user" := Text(req.user.userId),
      "home_country" := CountryMember(req.user.homeCountry),
      "phone_number" := Text(req.user.phoneNumber),
      "start_date" := Instant(req.startDate),
      "end_date" := Instant(req.endDate),
      "reservation_people_count" := Integer(req.peopleCount)]
  }

  function ConstructIntended(o: Opening, req: BookingRequest, freshId: string): Result<Reservation, Raised>
  {
    ValidateReservation(PayloadIntended(o, req), freshId)
  }

  /**
   * The intended construction succeeds exactly when both requested datetimes
   * fall on a day boundary, and then carries the opening, the freshly generated
   * identifier, and the people count, dates, home country and phone of the
   * request; otherwise it reports exactly the offending dates.
   */
  lemma IntendedValidates(o: Opening, req: BookingRequest, freshId: string)
    ensures var r := ConstructIntended(o, req, freshId);
      && (r.Success? <==> req.startDate % SecondsPerDay == 0 && req.endDate % SecondsPerDay == 0)
      && (r.Success? ==>
            && r.value.reservationId == freshId
            && r.value.tripOpening == o
            && r.value.peopleCount == req.peopleCount
            && r.value.user == req.user.userId
            && r.value.homeCountry == req.user.homeCountry
            && r.value.phoneNumber == req.user.phoneNumber
            && r.value.startDate * SecondsPerDay == req.startDate
            && r.value.endDate * SecondsPerDay == req.endDate)
      && (r.Failure? ==>
            r.error == ValidationError(
              (if req.startDate % SecondsPerDay == 0 then {} else {"start_date"}) +
              (if req.endDate % SecondsPerDay == 0 then {} else {"end_date"})))
  {
    var p := PayloadIntended(o, req);
    var r := ConstructIntended(o, req, freshId);
    var bad := (if req.startDate % SecondsPerDay == 0 then {} else {"start_date"}) +
               (if req.endDate % SecondsPerDay == 0 then {} else {"end_date"});
    assert forall name :: name in ReservationFields && !Accepts(p, name) <==> name in bad;
    if r.Success? {
      ValueInjective(r.value.homeCountry, req.user.homeCountry);
    } else {
      assert r.error.fields == bad;
    }
  }
}
