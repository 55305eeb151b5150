/**
 * The booking service's in-memory state and its operations: the inventory of
 * openings (kept in insertion order, like the dictionary it models), the
 * reservation store, the openings search that writes scores back into the
 * inventory, the pop-then-book executor and its two endpoints, and the counts.
 */
module App {
  import opened Wrappers
  import opened Enums
  import opened Schemas
  import opened Search
  import opened Booking

  // ---------------------------------------------------------------- the stores as values

  predicate Distinct(s: seq<string>)
  {
    forall i, j :: 0 <= i < j < |s| ==> s[i] != s[j]
  }

  /** The inventory rows in the order their keys were inserted. */
  function Values(order: seq<string>, m: map<string, Opening>): (rows: seq<Opening>)
    requires forall k :: k in order ==> k in m
    ensures |rows| == |order|
    ensures forall i :: 0 <= i < |order| ==> rows[i] == m[order[i]]
  {
    if order == [] then []
    else
      var n := |order| - 1;
      assert order[n] in order;
      Values(order[..n], m) + [m[order[n]]]
  }

  /** The key order after removing `k`: the remaining keys keep their order. */
  function Without(s: seq<string>, k: string): (r: seq<string>)
    ensures forall x :: x in r <==> x in s && x != k
    ensures Distinct(s) ==> Distinct(r)
    ensures k !in s ==> r == s
  {
    if s == [] then []
    else
      var rest := Without(s[1..], k);
      assert s == [s[0]] + s[1..];
      if s[0] == k then rest
      else
        assert Distinct(s) ==> s[0] !in rest && Distinct(s[1..]);
        [s[0]] + rest
  }

  /** Removing a listed key takes out exactly its position; the other keys keep their order. */
  lemma {:induction false} WithoutAt(s: seq<string>, i: int)
    requires Distinct(s) && 0 <= i < |s|
    ensures Without(s, s[i]) == s[..i] + s[i + 1..]
  {
    var k := s[i];
    if i == 0 {
      assert Without(s, k) == s[1..] by {
        assert s[0] !in s[1..] by {
          forall j | 0 <= j < |s| - 1 ensures s[1..][j] != s[0] {
            assert s[1..][j] == s[j + 1];
          }
        }
      }
      assert s[..i] + s[i + 1..] == s[1..];
    } else {
      var rest := Without(s[1..], k);
      assert Without(s, k) == [s[0]] + rest by {
        assert s[0] != k;
      }
      assert rest == s[1..i] + s[i + 1..] by {
        assert Distinct(s[1..]) by {
          forall a, b | 0 <= a < b < |s| - 1 ensures s[1..][a] != s[1..][b] {
            assert s[1..][a] == s[a + 1] && s[1..][b] == s[b + 1];
          }
        }
        assert s[1..][i - 1] == k;
        WithoutAt(s[1..], i - 1);
        assert s[1..][..i - 1] == s[1..i] && s[1..][i..] == s[i + 1..];
      }
      assert [s[0]] + (s[1..i] + s[i + 1..]) == s[..i] + s[i + 1..];
    }
  }

  /** The identifiers of the rows in order of first occurrence: the key order of a dict built from them. */
  function FirstIds(rows: seq<Opening>): seq<string>
  {
    if rows == [] then []
    else
      var n := |rows| - 1;
      var ids := FirstIds(rows[..n]);
      if rows[n].openingId in ids then ids else ids + [rows[n].openingId]
  }

  /**
   * The invariant of the two stores: every inventory key is listed once in the
   * key order, every opening is stored under its own identifier and every
   * reservation under its own identifier.
   */
  ghost predicate StoreInvariant(order: seq<string>, openings: map<string, Opening>,
                           reservations: map<string, Reservation>)
  {
    && Distinct(order)
    && (forall k :: k in order <==> k in openings)
    && (forall k :: k in openings ==> openings[k].openingId == k)
    && (forall k :: k in reservations ==> reservations[k].reservationId == k)
  }

  /** The inventory after storing each row under its own identifier, one after another. */
  function WriteBack(m: map<string, Opening>, rows: seq<Opening>): map<string, Opening>
  {
    if rows == [] then m
    else
      var n := |rows| - 1;
      WriteBack(m, rows[..n])[rows[n].openingId := rows[n]]
  }

  /**
   * Writing back rows that are inventory rows of matching openings up to their
   * score adds and removes no key, changes nothing but scores, and changes only
   * openings that match.
   */
  lemma {:induction false} WriteBackChangesOnlyScores(m: map<string, Opening>, rows: seq<Opening>, q: SearchQuery)
    requires forall x :: x in rows ==>
      x.openingId in m && x == m[x.openingId].(rankingScore := x.rankingScore) && Matches(q, m[x.openingId])
    ensures var w := WriteBack(m, rows);
      && w.Keys == m.Keys
      && (forall k :: k in w ==> w[k] == m[k].(rankingScore := w[k].rankingScore))
      && (forall k :: k in w && w[k] != m[k] ==> Matches(q, m[k]))
  {
    if rows != [] {
      var n := |rows| - 1;
      assert forall x :: x in rows[..n] ==> x in rows;
      WriteBackChangesOnlyScores(m, rows[..n], q);
      assert rows[n] in rows;
    }
  }

  /** Storing an opening over a listed one under its own identifier keeps the keys and the invariant. */
  lemma OverwriteKeepsInvariant(order: seq<string>, openings: map<string, Opening>,
                                reservations: map<string, Reservation>, x: Opening)
    requires StoreInvariant(order, openings, reservations)
    requires x.openingId in openings
    ensures openings[x.openingId := x].Keys == openings.Keys
    ensures StoreInvariant(order, openings[x.openingId := x], reservations)
  {
  }

  /** Writing back rows stored under listed identifiers keeps the keys and the invariant. */
  lemma {:induction false} WriteBackKeepsInvariant(order: seq<string>, openings: map<string, Opening>,
                                                   reservations: map<string, Reservation>, rows: seq<Opening>)
    requires StoreInvariant(order, openings, reservations)
    requires forall x :: x in rows ==> x.openingId in openings
    ensures WriteBack(openings, rows).Keys == openings.Keys
    ensures StoreInvariant(order, WriteBack(openings, rows), reservations)
  {
    if rows != [] {
      var n := |rows| - 1;
      assert forall x :: x in rows[..n] ==> x in rows;
      WriteBackKeepsInvariant(order, openings, reservations, rows[..n]);
      assert rows[n] in rows;
      OverwriteKeepsInvariant(order, WriteBack(openings, rows[..n]), reservations, rows[n]);
    }
  }

  /** Writing back the scored first `n` of some listed rows keeps the store invariant. */
  lemma ScoredPrefixKeepsInvariant(order: seq<string>, openings: map<string, Opening>,
                                   reservations: map<string, Reservation>, rows: seq<Opening>, t: int, n: int)
    requires StoreInvariant(order, openings, reservations)
    requires forall x :: x in rows ==> x.openingId in openings
    requires 0 <= n <= |rows| && ScoresDefined(rows[..n], t)
    ensures StoreInvariant(order, WriteBack(openings, Rescore(rows[..n], t)), reservations)
  {
    var scored := Rescore(rows[..n], t);
    forall x | x in scored ensures x.openingId in openings {
      var j :| 0 <= j < |scored| && scored[j] == x;
      assert rows[..n][j] in rows;
    }
    WriteBackKeepsInvariant(order, openings, reservations, scored);
  }

  /** Every inventory row is stored under a key of the inventory. */
  lemma RowsListed(order: seq<string>, openings: map<string, Opening>, reservations: map<string, Reservation>)
    requires StoreInvariant(order, openings, reservations)
    ensures forall x :: x in Values(order, openings) ==> x.openingId in openings
  {
    var rows := Values(order, openings);
    forall x | x in rows ensures x.openingId in openings {
      var i :| 0 <= i < |rows| && rows[i] == x;
      assert x == openings[order[i]];
    }
  }

  /** An inventory row is the opening stored under its own identifier. */
  lemma ListedRow(order: seq<string>, openings: map<string, Opening>,
                  reservations: map<string, Reservation>, y: Opening)
    requires StoreInvariant(order, openings, reservations)
    requires y in Values(order, openings)
    ensures y.openingId in openings && y == openings[y.openingId]
  {
    var rows := Values(order, openings);
    var i :| 0 <= i < |rows| && rows[i] == y;
    assert y == openings[order[i]];
  }

  /**
   * What a search writes into the inventory keeps every key and the store
   * invariant, changes nothing but the scores, and changes only openings that
   * satisfy every supplied predicate.
   */
  lemma SearchWritesOnlyScores(order: seq<string>, openings: map<string, Opening>,
                               reservations: map<string, Reservation>, q: SearchQuery)
    requires StoreInvariant(order, openings, reservations)
    ensures var w := WriteBack(openings, Rescored(Values(order, openings), q));
      && w.Keys == openings.Keys
      && StoreInvariant(order, w, reservations)
      && (forall k :: k in w ==> w[k] == openings[k].(rankingScore := w[k].rankingScore))
      && (forall k :: k in w && w[k] != openings[k] ==> Matches(q, openings[k]))
  {
    var rows := Values(order, openings);
    var written := Rescored(rows, q);
    RescoredRowsMatch(rows, q);
    forall x | x in written
      ensures x.openingId in openings && x == openings[x.openingId].(rankingScore := x.rankingScore)
      ensures Matches(q, openings[x.openingId])
    {
      var y :| y in rows && Matches(q, y) && x == y.(rankingScore := x.rankingScore);
      ListedRow(order, openings, reservations, y);
    }
    WriteBackChangesOnlyScores(openings, written, q);
  }

  /** With the scores of the first `i` rows defined and the next one dividing by zero, the scoring stops at `i`. */
  lemma {:induction false} FirstZeroDivisionAt(rows: seq<Opening>, t: int, i: int)
    requires 0 <= i <= |rows| && ScoresDefined(rows[..i], t)
    requires i < |rows| ==> Denominator(t, rows[i].DaysCount()) == 0
    ensures FirstZeroDivision(rows, t) == i
  {
    if rows != [] {
      if i == 0 {
      } else {
        assert rows[0] in rows[..i];
        assert rows[1..][..i - 1] == rows[..i][1..];
        assert forall x :: x in rows[..i][1..] ==> x in rows[..i];
        FirstZeroDivisionAt(rows[1..], t, i - 1);
      }
    }
  }

  /** Writing back one more row stores it over whatever the earlier rows left under its identifier. */
  lemma WriteBackAppend(m: map<string, Opening>, rows: seq<Opening>, x: Opening)
    ensures WriteBack(m, rows + [x]) == WriteBack(m, rows)[x.openingId := x]
  {
    assert (rows + [x])[..|rows|] == rows;
  }

  /** Scoring one more row extends the scored prefix by that row with its score. */
  lemma RescoreStep(rows: seq<Opening>, t: int, i: int)
    requires 0 <= i < |rows| && ScoresDefined(rows[..i], t)
    requires Denominator(t, rows[i].DaysCount()) != 0
    ensures ScoresDefined(rows[..i + 1], t)
    ensures Rescore(rows[..i + 1], t) == Rescore(rows[..i], t) + [WithScore(rows[i], t)]
  {
    assert rows[..i + 1] == rows[..i] + [rows[i]];
    assert rows[..i + 1][..i] == rows[..i];
  }

  /** A list of distinct keys is as long as the set of its keys. */
  lemma {:induction false} DistinctKeysCount(order: seq<string>, keys: set<string>)
    requires Distinct(order)
    requires forall k :: k in order <==> k in keys
    ensures |keys| == |order|
  {
    if order != [] {
      var n := |order| - 1;
      var last := order[n];
      assert last in keys;
      forall k | k in order[..n] ensures k in keys - {last} {
        var i :| 0 <= i < n && order[..n][i] == k;
        assert order[i] == k;
      }
      forall k | k in keys - {last} ensures k in order[..n] {
        var i :| 0 <= i < |order| && order[i] == k;
        assert i != n;
        assert order[..n][i] == k;
      }
      DistinctKeysCount(order[..n], keys - {last});
    }
  }

  // ---------------------------------------------------------------- booking as a step on values

  /**
   * What the booking executor does to the stores and what it answers: a
   * missing opening raises KeyError and changes nothing; otherwise the opening
   * is popped first, and then either construction fails, raising its error
   * with the opening already gone and no reservation stored, or the new
   * reservation is stored under its own identifier and the booking confirmed.
   */
  ghost predicate BookingStep(
    order: seq<string>, openings: map<string, Opening>, reservations: map<string, Reservation>,
    req: BookingRequest, construct: (Opening, BookingRequest) -> Result<Reservation, Raised>,
    order': seq<string>, openings': map<string, Opening>, reservations': map<string, Reservation>,
    out: Result<BookingResponse, Raised>)
  {
    if req.openingId !in openings then
      && out == Failure(KeyError(req.openingId))
      && order' == order && openings' == openings && reservations' == reservations
    else
      && order' == Without(order, req.openingId)
      && openings' == openings - {req.openingId}
      && match construct(openings[req.openingId], req)
         case Failure(e) => out == Failure(e) && reservations' == reservations
         case Success(r) =>
           && out == Success(BookingResponse(Confirmed, "booking made", Some(r)))
           && reservations' == reservations[r.reservationId := r]
  }

  /** A booking keeps the store invariant. */
  lemma BookingKeepsInvariant(
    order: seq<string>, openings: map<string, Opening>, reservations: map<string, Reservation>,
    req: BookingRequest, construct: (Opening, BookingRequest) -> Result<Reservation, Raised>,
    order': seq<string>, openings': map<string, Opening>, reservations': map<string, Reservation>,
    out: Result<BookingResponse, Raised>)
    requires StoreInvariant(order, openings, reservations)
    requires BookingStep(order, openings, reservations, req, construct, order', openings', reservations', out)
    ensures StoreInvariant(order', openings', reservations')
  {
  }

  /** Booking never answers NOT_FOUND: a confirmed booking is the only answer it returns. */
  lemma BookingNeverAnswersNotFound(
    order: seq<string>, openings: map<string, Opening>, reservations: map<string, Reservation>,
    req: BookingRequest, construct: (Opening, BookingRequest) -> Result<Reservation, Raised>,
    order': seq<string>, openings': map<string, Opening>, reservations': map<string, Reservation>,
    out: Result<BookingResponse, Raised>)
    requires BookingStep(order, openings, reservations, req, construct, order', openings', reservations', out)
    ensures out.Success? ==> out.value.status == Confirmed && out.value.details.Some?
    ensures req.openingId !in openings ==> out == Failure(KeyError(req.openingId)) && |openings'| == |openings|
  {
  }

  /**
   * Booking a listed opening takes it out of every later search: no inventory
   * row carries its identifier any more.
   */
  lemma BookedOpeningLeavesInventory(
    order: seq<string>, openings: map<string, Opening>, reservations: map<string, Reservation>,
    req: BookingRequest, construct: (Opening, BookingRequest) -> Result<Reservation, Raised>,
    order': seq<string>, openings': map<string, Opening>, reservations': map<string, Reservation>,
    out: Result<BookingResponse, Raised>)
    requires StoreInvariant(order, openings, reservations)
    requires BookingStep(order, openings, reservations, req, construct, order', openings', reservations', out)
    requires req.openingId in openings
    ensures req.openingId !in openings'
    ensures forall x :: x in Values(order', openings') ==> x.openingId != req.openingId
  {
    BookingKeepsInvariant(order, openings, reservations, req, construct, order', openings', reservations', out);
    var rows := Values(order', openings');
    forall x | x in rows ensures x.openingId != req.openingId {
      var i :| 0 <= i < |rows| && rows[i] == x;
      assert x == openings'[order'[i]];
    }
  }

  /**
   * With construction as written, booking a listed opening always loses it: the
   * opening leaves the inventory, no reservation is stored, and validation fails.
   */
  lemma AsWrittenBookingLosesOpening(
    order: seq<string>, openings: map<string, Opening>, reservations: map<string, Reservation>,
    req: BookingRequest, freshId: string,
    order': seq<string>, openings': map<string, Opening>, reservations': map<string, Reservation>,
    out: Result<BookingResponse, Raised>)
    requires BookingStep(order, openings, reservations, req,
                         (o, r) => ConstructAsWritten(o, r, freshId),
                         order', openings', reservations', out)
    requires req.openingId in openings
    ensures req.openingId !in openings' && |openings'| == |openings| - 1
    ensures reservations' == reservations
    ensures out.Failure? && out.error.ValidationError?
  {
    AsWrittenNeverValidates(openings[req.openingId], req, freshId);
  }

  /**
   * With the intended construction and whole-day dates, booking a listed opening
   * confirms: the opening leaves the inventory and the reservation stored under
   * the fresh identifier carries the opening and the request's people count,
   * dates, home country and phone.
   */
  lemma IntendedBookingConfirms(
    order: seq<string>, openings: map<string, Opening>, reservations: map<string, Reservation>,
    req: BookingRequest, freshId: string,
    order': seq<string>, openings': map<string, Opening>, reservations': map<string, Reservation>,
    out: Result<BookingResponse, Raised>)
    requires BookingStep(order, openings, reservations, req,
                         (o, r) => ConstructIntended(o, r, freshId),
                         order', openings', reservations', out)
    requires req.openingId in openings
    requires req.startDate % SecondsPerDay == 0 && req.endDate % SecondsPerDay == 0
    ensures req.openingId !in openings'
    ensures out.Success? && out.value.status == Confirmed
    ensures freshId in reservations' && out.value.details == Some(reservations'[freshId])
    ensures var r := reservations'[freshId];
      && r.tripOpening == openings[req.openingId]
      && r.peopleCount == req.peopleCount
      && r.homeCountry == req.user.homeCountry
      && r.phoneNumber == req.user.phoneNumber
      && r.startDate * SecondsPerDay == req.startDate
      && r.endDate * SecondsPerDay == req.endDate
  {
    IntendedValidates(openings[req.openingId], req, freshId);
  }

  // ---------------------------------------------------------------- counting

  /** How many rows are in country `c`. */
  function Occurrences(rows: seq<Opening>, c: Country): nat
  {
    if rows == [] then 0
    else Occurrences(rows[..|rows| - 1], c) + (if rows[|rows| - 1].country == c then 1 else 0)
  }

  /** The sum, over the countries `cs`, of their counts in `counts` (absent countries count 0). */
  function SumCounts(cs: seq<Country>, counts: map<Country, nat>): nat
  {
    if cs == [] then 0 else (if cs[0] in counts then counts[cs[0]] else 0) + SumCounts(cs[1..], counts)
  }

  /** The sum, over the countries `cs`, of how many rows are in each. */
  function SumOccurrences(cs: seq<Country>, rows: seq<Opening>): nat
  {
    if cs == [] then 0 else Occurrences(rows, cs[0]) + SumOccurrences(cs[1..], rows)
  }

  /** How many entries of `cs` are `c`. */
  function Hits(cs: seq<Country>, c: Country): nat
  {
    if cs == [] then 0 else (if cs[0] == c then 1 else 0) + Hits(cs[1..], c)
  }

  lemma {:induction false} HitsOfDistinct(cs: seq<Country>, c: Country)
    requires forall i, j :: 0 <= i < j < |cs| ==> cs[i] != cs[j]
    ensures Hits(cs, c) == if c in cs then 1 else 0
  {
    if cs != [] {
      HitsOfDistinct(cs[1..], c);
      if cs[0] == c {
        forall j | 0 <= j < |cs[1..]| ensures cs[1..][j] != c {
          assert cs[1..][j] == cs[j + 1];
        }
      } else {
        assert c in cs <==> c in cs[1..] by {
          assert cs == [cs[0]] + cs[1..];
        }
      }
    }
  }

  lemma {:induction false} SumOccurrencesAppend(cs: seq<Country>, rows: seq<Opening>, r: Opening)
    ensures SumOccurrences(cs, rows + [r]) == SumOccurrences(cs, rows) + Hits(cs, r.country)
  {
    if cs != [] {
      SumOccurrencesAppend(cs[1..], rows, r);
      assert (rows + [r])[..|rows|] == rows;
    }
  }

  /** Every row is in exactly one country, so the per-country counts add up to the number of rows. */
  lemma {:induction false} OccurrencesAddUp(rows: seq<Opening>)
    ensures SumOccurrences(Countries, rows) == |rows|
  {
    if rows == [] {
      ZeroSum(Countries);
    } else {
      var n := |rows| - 1;
      OccurrencesAddUp(rows[..n]);
      assert rows == rows[..n] + [rows[n]];
      SumOccurrencesAppend(Countries, rows[..n], rows[n]);
      CountriesEnumerated(rows[n].country);
      HitsOfDistinct(Countries, rows[n].country);
    }
  }

  lemma {:induction false} ZeroSum(cs: seq<Country>)
    ensures SumOccurrences(cs, []) == 0
  {
    if cs != [] {
      ZeroSum(cs[1..]);
    }
  }

  lemma {:induction false} SumCountsMatches(cs: seq<Country>, counts: map<Country, nat>, rows: seq<Opening>)
    requires forall c :: c in counts <==> Occurrences(rows, c) > 0
    requires forall c :: c in counts ==> counts[c] == Occurrences(rows, c)
    ensures SumCounts(cs, counts) == SumOccurrences(cs, rows)
  {
    if cs != [] {
      SumCountsMatches(cs[1..], counts, rows);
    }
  }

  // ---------------------------------------------------------------- the service state

  class Store {
    /** The keys of OPENINGS_DB in insertion order. */
    var order: seq<string>
    /** OPENINGS_DB: opening identifier to opening. */
    var openings: map<string, Opening>
    /** RESERVATIONS_DB: reservation identifier to reservation. */
    var reservations: map<string, Reservation>

    ghost predicate Valid()
      reads this
    {
      StoreInvariant(order, openings, reservations)
    }

    /** The inventory rows in dictionary order, as a search reads them. */
    function Rows(): seq<Opening>
      reads this
      requires Valid()
    {
      Values(order, openings)
    }

    /** The start-up state: the generated openings, each under its own identifier, and no reservations. */
    constructor (initial: seq<Opening>)
      ensures Valid()
      ensures order == FirstIds(initial)
      ensures openings == WriteBack(map[], initial)
      ensures reservations == map[]
    {
      var keys: seq<string> := [];
      var m: map<string, Opening> := map[];
      var i := 0;
      while i < |initial|
        invariant 0 <= i <= |initial|
        invariant StoreInvariant(keys, m, map[])
        invariant m == WriteBack(map[], initial[..i])
        invariant keys == FirstIds(initial[..i])
      {
        var row := initial[i];
        if row.openingId !in m {
          keys := keys + [row.openingId];
        }
        m := m[row.openingId := row];
        assert initial[..i + 1][..i] == initial[..i];
        i := i + 1;
      }
      assert initial[..|initial|] == initial;
      order := keys;
      openings := m;
      reservations := map[];
    }

    /** The number of openings in the inventory. */
    function Count(): (n: nat)
      reads this
      requires Valid()
      ensures n == |Rows()|
    {
      DistinctKeysCount(order, openings.Keys);
      |openings|
    }

    /** The number of openings per country, and the total. */
    method CountriesCount() returns (resp: CountryCountsResponse)
      requires Valid()
      ensures resp.status == Found
      ensures resp.totalOpenings == Count()
      ensures forall c :: c in resp.countryCounts <==> Occurrences(Rows(), c) > 0
      ensures forall c :: c in resp.countryCounts ==> resp.countryCounts[c] == Occurrences(Rows(), c)
      ensures SumCounts(Countries, resp.countryCounts) == resp.totalOpenings
    {
      var rows := Rows();
      var counts: map<Country, nat> := map[];
      var i := 0;
      while i < |rows|
        invariant 0 <= i <= |rows|
        invariant forall c :: c in counts <==> Occurrences(rows[..i], c) > 0
        invariant forall c :: c in counts ==> counts[c] == Occurrences(rows[..i], c)
      {
        var c := rows[i].country;
        counts := counts[c := (if c in counts then counts[c] else 0) + 1];
        assert rows[..i + 1][..i] == rows[..i];
        i := i + 1;
      }
      assert rows[..|rows|] == rows;
      SumCountsMatches(Countries, counts, rows);
      OccurrencesAddUp(rows);
      resp := CountryCountsResponse(counts, Count());
    }

    /**
     * The reservation listing for `user`, with its polarity as written:
     * NOT_FOUND with an empty listing exactly when a reservation is stored
     * under that key, FOUND with no listing otherwise.
     */
    function ReservationsFor(user: string): (resp: ReservationsResponse)
      reads this
      ensures resp.status == NotFound <==> user in reservations
      ensures resp.status == NotFound ==> resp.reservations == Some(map[])
      ensures resp.status != NotFound ==> resp.status == Found && resp.reservations.None?
    {
      if user in reservations then ReservationsResponse(NotFound, Some(map[]))
      else ReservationsResponse(Found, None)
    }

    /**
     * The scoring loop of a search: it scores the surviving rows in order and
     * writes each new score into the inventory, stopping at the first row whose
     * score divides by zero. `complete` says whether every row was scored.
     */
    method ScoreRows(rows: seq<Opening>, t: int) returns (scored: seq<Opening>, complete: bool)
      requires Valid()
      requires forall x :: x in rows ==> x.openingId in openings
      modifies this`openings
      ensures Valid()
      ensures complete <==> ScoresDefined(rows, t)
      ensures complete ==> scored == Rescore(rows, t)
      ensures openings == WriteBack(old(openings), Rescore(rows[..FirstZeroDivision(rows, t)], t))
    {
      scored := [];
      var i := 0;
      // the loop stops where the score would raise ZeroDivisionError; the scores written so far stay written
      while i < |rows| && Denominator(t, rows[i].DaysCount()) != 0
        invariant 0 <= i <= |rows|
        invariant ScoresDefined(rows[..i], t)
        invariant scored == Rescore(rows[..i], t)
        invariant openings == WriteBack(old(openings), scored)
      {
        var ranked := WithScore(rows[i], t);
        openings := openings[rows[i].openingId := ranked];
        assert ScoresDefined(rows[..i + 1], t) && scored + [ranked] == Rescore(rows[..i + 1], t) by {
          RescoreStep(rows, t, i);
        }
        assert openings == WriteBack(old(openings), scored + [ranked]) by {
          WriteBackAppend(old(openings), scored, ranked);
        }
        scored := scored + [ranked];
        i := i + 1;
      }
      assert FirstZeroDivision(rows, t) == i by {
        FirstZeroDivisionAt(rows, t, i);
      }
      assert Valid() by {
        ScoredPrefixKeepsInvariant(order, old(openings), reservations, rows, t, i);
      }
      complete := i == |rows|;
      if complete {
        assert rows[..i] == rows;
      } else {
        assert rows[i] in rows;
      }
    }

    /**
     * The openings search. It answers as SearchResult over the rows in
     * inventory order, and writes each surviving row's score into the
     * inventory, up to the first row whose score divides by zero.
     */
    method Search(q: SearchQuery) returns (out: Result<SearchResponse, Raised>)
      requires Valid()
      modifies this`openings
      ensures Valid()
      ensures out == SearchResult(old(Rows()), q)
      ensures openings == WriteBack(old(openings), Rescored(old(Rows()), q))
    {
      var rows := Rows();
      ghost var all := rows;
      ghost var written := Rescored(all, q);
      ghost var openings0 := openings;
      if q.country.Some? && ParseCountry(q.country.value).None? {
        out := Success(SearchResponse(0, map["country" := PText(q.country.value)], [], NotAvailable));
        assert written == [];
      } else {
        rows := Filtered(rows, q);
        if q.daysCount.Some? {
          var t := q.daysCount.value;
          assert written == Rescore(rows[..FirstZeroDivision(rows, t)], t) by {
            SearchOutcome(all, q, rows);
          }
          assert forall x :: x in rows ==> x.openingId in openings by {
            RowsListed(order, openings, reservations);
            FilteredMembers(all, q);
          }
          var scored, complete := ScoreRows(rows, t);
          if complete {
            rows := Truncate(Ranked(scored), q.limit);
            out := Success(Respond(rows, SearchParams(q)));
          } else {
            out := Failure(ZeroDivisionError);
          }
          assert out == SearchResult(all, q) by {
            SearchOutcome(all, q, Filtered(all, q));
          }
        } else {
          rows := Truncate(rows, q.limit);
          out := Success(Respond(rows, SearchParams(q)));
          assert written == [] && out == SearchResult(all, q) by {
            SearchOutcome(all, q, Filtered(all, q));
          }
        }
      }
      assert openings == WriteBack(openings0, written);
    }

    /** The pop-then-book executor; `construct` builds and validates the reservation. */
    method PopAndBook(req: BookingRequest, construct: (Opening, BookingRequest) -> Result<Reservation, Raised>)
      returns (out: Result<BookingResponse, Raised>)
      requires Valid()
      modifies this
      ensures Valid()
      ensures BookingStep(old(order), old(openings), old(reservations), req, construct,
                          order, openings, reservations, out)
    {
      if req.openingId !in openings {
        return Failure(KeyError(req.openingId));
      }
      var opening := openings[req.openingId];
      openings := openings - {req.openingId};
      order := Without(order, req.openingId);
      // a popped opening is never falsy, so the NOT_FOUND answer after the pop cannot happen
      var built := construct(opening, req);
      if built.Failure? {
        return Failure(built.error);
      }
      var reservation := built.value;
      reservations := reservations[reservation.reservationId := reservation];
      out := Success(BookingResponse(Confirmed, "booking made", Some(reservation)));
    }

    /** The plain booking endpoint. */
    method Book(req: BookingRequest, construct: (Opening, BookingRequest) -> Result<Reservation, Raised>)
      returns (out: Result<BookingResponse, Raised>)
      requires Valid()
      modifies this
      ensures Valid()
      ensures BookingStep(old(order), old(openings), old(reservations), req, construct,
                          order, openings, reservations, out)
    {
      out := PopAndBook(req, construct);
    }

    /**
     * The competitive booking endpoint: a draw above 0.3 rejects the booking
     * with NOT_AVAILABLE and no details, touching neither store; otherwise it
     * books exactly like the plain endpoint.
     */
    method CompetitiveBook(req: BookingRequest, draw: real,
                           construct: (Opening, BookingRequest) -> Result<Reservation, Raised>)
      returns (out: Result<BookingResponse, Raised>)
      requires Valid()
      requires 0.0 <= draw < 1.0
      modifies this
      ensures Valid()
      ensures draw > 0.3 ==>
        && out == Success(BookingResponse(NotAvailable, "opening is no longer available"))
        && out.value.details.None?
        && order == old(order) && openings == old(openings) && reservations == old(reservations)
      ensures draw <= 0.3 ==>
        BookingStep(old(order), old(openings), old(reservations), req, construct,
                    order, openings, reservations, out)
    {
      if draw > 0.3 {
        return Success(BookingResponse(NotAvailable, "opening is no longer available"));
      }
      out := PopAndBook(req, construct);
    }
  }
}
