/**
 * The value part of the openings search: the optional predicates applied one
 * after another, the stay-length proximity score, the stable sort in descending
 * order of score, and the truncation to the requested limit.
 */
module Search {
  import opened Wrappers
  import opened Enums
  import opened Schemas

  /** The arguments of a search; `limit` and `daysCount` default to 10 and 2, the others to absent. */
  datatype SearchQuery = SearchQuery(
    country: Option<string> := None,
    startDate: Option<Timestamp> := None,
    endDate: Option<Timestamp> := None,
    roomRate: Option<real> := None,
    limit: Option<int> := Some(10),
    daysCount: Option<int> := Some(2))

  function Abs(x: int): nat { if x < 0 then -x else x }

  function Min(a: int, b: int): int { if a <= b then a else b }

  // ---------------------------------------------------------------- filtering

  /** The rows that `keep` accepts, in their original order. */
  function Filter(rows: seq<Opening>, keep: Opening -> bool): (r: seq<Opening>)
    ensures |r| <= |rows|
  {
    if rows == [] then []
    else
      var rest := Filter(rows[1..], keep);
      if keep(rows[0]) then [rows[0]] + rest else rest
  }

  /** A filter keeps exactly the rows that pass, and all of them when every row passes. */
  lemma {:induction false} FilterMembers(rows: seq<Opening>, keep: Opening -> bool)
    ensures forall x :: x in Filter(rows, keep) <==> x in rows && keep(x)
    ensures (forall x :: x in rows ==> keep(x)) ==> Filter(rows, keep) == rows
  {
    if rows != [] {
      FilterMembers(rows[1..], keep);
      assert rows == [rows[0]] + rows[1..];
    }
  }

  /** Filtering a concatenation filters each part and keeps them in order. */
  lemma {:induction false} FilterAppend(a: seq<Opening>, b: seq<Opening>, keep: Opening -> bool)
    ensures Filter(a + b, keep) == Filter(a, keep) + Filter(b, keep)
  {
    if a == [] {
      assert a + b == b;
    } else {
      var ab := a + b;
      var head := if keep(a[0]) then [a[0]] else [];
      var tail := Filter(a[1..], keep);
      assert Filter(ab, keep) == head + (tail + Filter(b, keep)) by {
        assert ab != [] && ab[0] == a[0] && ab[1..] == a[1..] + b;
        FilterAppend(a[1..], b, keep);
      }
      assert Filter(a, keep) == head + tail;
      assert head + (tail + Filter(b, keep)) == (head + tail) + Filter(b, keep);
    }
  }

  /** A single row is kept exactly when it passes. */
  lemma FilterOne(x: Opening, keep: Opening -> bool)
    ensures Filter([x], keep) == if keep(x) then [x] else []
  {
    assert [x][1..] == [];
  }

  /** Filtering depends only on what the condition says about the rows. */
  lemma {:induction false} FilterSameCondition(rows: seq<Opening>, keep: Opening -> bool, keep': Opening -> bool)
    requires forall x :: x in rows ==> keep(x) == keep'(x)
    ensures Filter(rows, keep) == Filter(rows, keep')
  {
    if rows != [] {
      assert rows[0] in rows;
      assert forall x :: x in rows[1..] ==> x in rows;
      FilterSameCondition(rows[1..], keep, keep');
    }
  }

  /** Two filters one after the other are one filter by both conditions. */
  lemma {:induction false} FilterTwice(rows: seq<Opening>, keep: Opening -> bool, keep': Opening -> bool)
    ensures Filter(Filter(rows, keep), keep') == Filter(rows, x => keep(x) && keep'(x))
  {
    if rows != [] {
      FilterTwice(rows[1..], keep, keep');
      var rest := Filter(rows[1..], keep);
      if keep(rows[0]) {
        assert ([rows[0]] + rest)[0] == rows[0];
        assert ([rows[0]] + rest)[1..] == rest;
      }
    }
  }

  /** Whether the query names a country that is not a Country value (the early exit). */
  predicate UnknownCountry(q: SearchQuery)
  {
    q.country.Some? && ParseCountry(q.country.value).None?
  }

  /** Whether a row satisfies every predicate the query supplies. */
  predicate Matches(q: SearchQuery, r: Opening)
  {
    && (q.country.Some? ==> r.country.Value() == q.country.value)
    && (q.startDate.Some? ==> r.startDate >= q.startDate.value)
    && (q.endDate.Some? ==> r.endDate <= q.endDate.value)
    && (q.roomRate.Some? ==> r.dayRate <= q.roomRate.value)
  }

  /** The rows left after the country, start-date, end-date and rate predicates, in that order. */
  function Filtered(rows: seq<Opening>, q: SearchQuery): (r: seq<Opening>)
    ensures |r| <= |rows|
  {
    var byCountry :=
      if q.country.Some? then Filter(rows, (x: Opening) => x.country.Value() == q.country.value) else rows;
    var byStart :=
      if q.startDate.Some? then Filter(byCountry, (x: Opening) => x.startDate >= q.startDate.value) else byCountry;
    var byEnd :=
      if q.endDate.Some? then Filter(byStart, (x: Opening) => x.endDate <= q.endDate.value) else byStart;
    if q.roomRate.Some? then Filter(byEnd, (x: Opening) => x.dayRate <= q.roomRate.value) else byEnd
  }

  /**
   * The four successive predicates keep exactly the rows matching all of them,
   * in inventory order: the same rows as one filter by Matches.
   */
  lemma FilteredInOrder(rows: seq<Opening>, q: SearchQuery)
    ensures Filtered(rows, q) == Filter(rows, x => Matches(q, x))
  {
    var p1 := (x: Opening) => q.country.Some? ==> x.country.Value() == q.country.value;
    var p2 := (x: Opening) => q.startDate.Some? ==> x.startDate >= q.startDate.value;
    var p3 := (x: Opening) => q.endDate.Some? ==> x.endDate <= q.endDate.value;
    var p4 := (x: Opening) => q.roomRate.Some? ==> x.dayRate <= q.roomRate.value;
    var byCountry :=
      if q.country.Some? then Filter(rows, (x: Opening) => x.country.Value() == q.country.value) else rows;
    var byStart :=
      if q.startDate.Some? then Filter(byCountry, (x: Opening) => x.startDate >= q.startDate.value) else byCountry;
    var byEnd :=
      if q.endDate.Some? then Filter(byStart, (x: Opening) => x.endDate <= q.endDate.value) else byStart;
    var byRate := if q.roomRate.Some? then Filter(byEnd, (x: Opening) => x.dayRate <= q.roomRate.value) else byEnd;
    assert byRate == Filtered(rows, q);
    assert byCountry == Filter(rows, p1) by {
      if q.country.Some? {
        FilterSameCondition(rows, (x: Opening) => x.country.Value() == q.country.value, p1);
      } else {
        FilterMembers(rows, p1);
      }
    }
    assert byStart == Filter(byCountry, p2) by {
      if q.startDate.Some? {
        FilterSameCondition(byCountry, (x: Opening) => x.startDate >= q.startDate.value, p2);
      } else {
        FilterMembers(byCountry, p2);
      }
    }
    assert byEnd == Filter(byStart, p3) by {
      if q.endDate.Some? {
        FilterSameCondition(byStart, (x: Opening) => x.endDate <= q.endDate.value, p3);
      } else {
        FilterMembers(byStart, p3);
      }
    }
    assert byRate == Filter(byEnd, p4) by {
      if q.roomRate.Some? {
        FilterSameCondition(byEnd, (x: Opening) => x.dayRate <= q.roomRate.value, p4);
      } else {
        FilterMembers(byEnd, p4);
      }
    }
    var p12 := (x: Opening) => p1(x) && p2(x);
    var p123 := (x: Opening) => p12(x) && p3(x);
    var p1234 := (x: Opening) => p123(x) && p4(x);
    FilterTwice(rows, p1, p2);
    FilterTwice(rows, p12, p3);
    FilterTwice(rows, p123, p4);
    assert byRate == Filter(rows, p1234);
    forall x | x in rows ensures p1234(x) == Matches(q, x) {
      assert p1234(x) == (p1(x) && p2(x) && p3(x) && p4(x));
    }
    FilterSameCondition(rows, p1234, x => Matches(q, x));
  }

  /**
   * The rows left by the predicates are exactly the inventory rows matching
   * every supplied predicate, and all of them when every row matches.
   */
  lemma FilteredMembers(rows: seq<Opening>, q: SearchQuery)
    ensures forall x :: x in Filtered(rows, q) <==> x in rows && Matches(q, x)
    ensures (forall x :: x in rows ==> Matches(q, x)) ==> Filtered(rows, q) == rows
  {
    FilteredInOrder(rows, q);
    FilterMembers(rows, x => Matches(q, x));
  }

  /** The parameters a search echoes back: one entry per supplied argument, the room rate under "rate". */
  function SearchParams(q: SearchQuery): (m: map<string, ParamValue>)
    ensures m.Keys <= {"country", "start_date", "end_date", "rate", "days_count"}
    ensures "country" in m <==> q.country.Some?
    ensures "start_date" in m <==> q.startDate.Some?
    ensures "end_date" in m <==> q.endDate.Some?
    ensures "rate" in m <==> q.roomRate.Some?
    ensures "days_count" in m <==> q.daysCount.Some?
    ensures q.country.Some? ==> m["country"] == PText(q.country.value)
    ensures q.startDate.Some? ==> m["start_date"] == PInstant(q.startDate.value)
    ensures q.endDate.Some? ==> m["end_date"] == PInstant(q.endDate.value)
    ensures q.roomRate.Some? ==> m["rate"] == PReal(q.roomRate.value)
    ensures q.daysCount.Some? ==> m["days_count"] == PInt(q.daysCount.value)
  {
    var m0: map<string, ParamValue> := map[];
    var m1 := if q.country.Some? then m0["country" := PText(q.country.value)] else m0;
    var m2 := if q.startDate.Some? then m1["start_date" := PInstant(q.startDate.value)] else m1;
    var m3 := if q.endDate.Some? then m2["end_date" := PInstant(q.endDate.value)] else m2;
    var m4 := if q.roomRate.Some? then m3["rate" := PReal(q.roomRate.value)] else m3;
    if q.daysCount.Some? then m4["days_count" := PInt(q.daysCount.value)] else m4
  }

  // ---------------------------------------------------------------- scoring

  /** The divisor of the score: the larger of the target and the stay length. */
  function Denominator(target: int, days: int): int
  {
    if target >= days then target else days
  }

  /** How far a stay length is from the target, relative to the larger of the two. */
  function Score(target: int, days: int): real
    requires Denominator(target, days) != 0
  {
    Abs(days - target) as real / Denominator(target, days) as real
  }

  /** For a target and stay of at least one day the score lies in [0, 1) and is 0 exactly on a match. */
  lemma ScoreInUnitInterval(target: int, days: int)
    requires target >= 1 && days >= 1
    ensures Denominator(target, days) != 0
    ensures 0.0 <= Score(target, days) < 1.0
    ensures Score(target, days) == 0.0 <==> days == target
  {
    var n := Abs(days - target) as real;
    var m := Denominator(target, days) as real;
    assert 0.0 <= n < m;
    assert n / m * m == n;
  }

  /** A row with its transient score set. */
  function WithScore(r: Opening, target: int): Opening
    requires Denominator(target, r.DaysCount()) != 0
  {
    r.(rankingScore := Score(target, r.DaysCount()))
  }

  /** Whether scoring any of the rows would divide by zero. */
  predicate ScoresDefined(rows: seq<Opening>, target: int)
  {
    forall r :: r in rows ==> Denominator(target, r.DaysCount()) != 0
  }

  /** The rows, in order, each carrying its score against the target. */
  function Rescore(rows: seq<Opening>, target: int): (r: seq<Opening>)
    requires ScoresDefined(rows, target)
    ensures |r| == |rows|
    ensures forall i :: 0 <= i < |rows| ==> r[i] == WithScore(rows[i], target)
  {
    if rows == [] then []
    else
      var n := |rows| - 1;
      assert rows[n] in rows;
      Rescore(rows[..n], target) + [WithScore(rows[n], target)]
  }

  /** The position of the first row whose score would divide by zero, or the length when there is none. */
  function FirstZeroDivision(rows: seq<Opening>, target: int): (i: nat)
    ensures i <= |rows|
    ensures ScoresDefined(rows[..i], target)
    ensures i < |rows| ==> Denominator(target, rows[i].DaysCount()) == 0
  {
    if rows == [] then 0
    else if Denominator(target, rows[0].DaysCount()) == 0 then 0
    else
      var i := FirstZeroDivision(rows[1..], target);
      assert rows[..i + 1] == [rows[0]] + rows[1..][..i];
      i + 1
  }

  // ---------------------------------------------------------------- ordering

  /** The sort key: a score of zero is falsy and counts as -1. */
  function SortKey(r: Opening): real
  {
    if r.rankingScore == 0.0 then -1.0 else r.rankingScore
  }

  /** Whether the keys never increase along the sequence. */
  predicate Descending(s: seq<Opening>)
  {
    forall i, j :: 0 <= i < j < |s| ==> SortKey(s[j]) <= SortKey(s[i])
  }

  /** The rows with key `k`, in their order in `s`. */
  function WithKey(s: seq<Opening>, k: real): seq<Opening>
  {
    if s == [] then [] else (if SortKey(s[0]) == k then [s[0]] else []) + WithKey(s[1..], k)
  }

  /** `x` placed before the first row whose key is not larger than its own. */
  function Insert(x: Opening, s: seq<Opening>): seq<Opening>
  {
    if s == [] then [x]
    else if SortKey(s[0]) <= SortKey(x) then [x] + s
    else [s[0]] + Insert(x, s[1..])
  }

  /** The stable sort in descending order of key. */
  function Ranked(s: seq<Opening>): seq<Opening>
  {
    if s == [] then [] else Insert(s[0], Ranked(s[1..]))
  }

  /** Inserting adds exactly the one row. */
  lemma {:induction false} InsertPermutes(x: Opening, s: seq<Opening>)
    ensures multiset(Insert(x, s)) == multiset(s) + multiset{x}
  {
    if s != [] && SortKey(x) < SortKey(s[0]) {
      InsertPermutes(x, s[1..]);
      assert s == [s[0]] + s[1..];
    }
  }

  /** The ranking is a permutation of the rows. */
  lemma {:induction false} RankedPermutes(s: seq<Opening>)
    ensures multiset(Ranked(s)) == multiset(s)
  {
    if s != [] {
      RankedPermutes(s[1..]);
      InsertPermutes(s[0], Ranked(s[1..]));
      assert s == [s[0]] + s[1..];
    }
  }

  lemma {:induction false} InsertDescending(x: Opening, s: seq<Opening>)
    requires Descending(s)
    ensures Descending(Insert(x, s))
  {
    if s != [] && SortKey(x) < SortKey(s[0]) {
      var t := Insert(x, s[1..]);
      InsertDescending(x, s[1..]);
      InsertPermutes(x, s[1..]);
      forall y | y in t ensures SortKey(y) <= SortKey(s[0]) {
        assert y in multiset(t);
        if y != x {
          assert y in s[1..];
        }
      }
      assert Insert(x, s) == [s[0]] + t;
    }
  }

  lemma WithKeyCons(y: Opening, s: seq<Opening>, k: real)
    ensures WithKey([y] + s, k) == (if SortKey(y) == k then [y] else []) + WithKey(s, k)
  {
    assert ([y] + s)[1..] == s;
  }

  lemma {:induction false} InsertStable(x: Opening, s: seq<Opening>, k: real)
    requires Descending(s)
    ensures WithKey(Insert(x, s), k) == WithKey([x] + s, k)
  {
    if s != [] && SortKey(x) < SortKey(s[0]) {
      var t := Insert(x, s[1..]);
      assert Descending(s[1..]);
      InsertStable(x, s[1..], k);
      assert Insert(x, s) == [s[0]] + t;
      assert s == [s[0]] + s[1..];
      WithKeyCons(s[0], t, k);
      WithKeyCons(x, s[1..], k);
      WithKeyCons(x, s, k);
      WithKeyCons(s[0], s[1..], k);
      var rest := WithKey(s[1..], k);
      var head := if SortKey(s[0]) == k then [s[0]] else [];
      var mid := if SortKey(x) == k then [x] else [];
      assert WithKey(s, k) == head + rest;
      assert WithKey(Insert(x, s), k) == head + (mid + rest);
      assert WithKey([x] + s, k) == mid + (head + rest);
      // x's key is below s[0]'s, so at most one of the two is k
      if head == [] {
        assert head + (mid + rest) == mid + rest == mid + (head + rest);
      } else {
        assert mid == [];
        assert head + (mid + rest) == head + rest == mid + (head + rest);
      }
    } else if s == [] {
      assert [x] + s == [x];
    } else {
      assert Insert(x, s) == [x] + s;
    }
  }

  /** The ranked rows are in descending order of key. */
  lemma {:induction false} RankedDescending(s: seq<Opening>)
    ensures Descending(Ranked(s))
  {
    if s != [] {
      RankedDescending(s[1..]);
      InsertDescending(s[0], Ranked(s[1..]));
    }
  }

  /** The ranking is stable: the rows of any one key keep their relative order. */
  lemma {:induction false} RankedStable(s: seq<Opening>, k: real)
    ensures WithKey(Ranked(s), k) == WithKey(s, k)
  {
    if s != [] {
      RankedStable(s[1..], k);
      RankedDescending(s[1..]);
      InsertStable(s[0], Ranked(s[1..]), k);
      assert ([s[0]] + Ranked(s[1..]))[1..] == Ranked(s[1..]);
      assert ([s[0]] + s[1..]) == s;
    }
  }

  // ---------------------------------------------------------------- truncation

  /** `if limit: rows = rows[:limit]`, with the slice semantics of a negative stop. */
  function Truncate(rows: seq<Opening>, limit: Option<int>): (r: seq<Opening>)
    ensures |r| <= |rows| && r == rows[..|r|]
    ensures limit.None? || limit.value == 0 ==> r == rows
    ensures limit.Some? && limit.value > 0 ==> |r| == Min(limit.value, |rows|)
    ensures limit.Some? && limit.value < 0 ==> |r| == if |rows| + limit.value < 0 then 0 else |rows| + limit.value
  {
    if limit.None? || limit.value == 0 then rows
    else if limit.value > 0 then rows[..Min(limit.value, |rows|)]
    else if |rows| + limit.value < 0 then []
    else rows[..|rows| + limit.value]
  }

  // ---------------------------------------------------------------- the whole search

  /** A search answer with the default status FOUND. */
  function Respond(rows: seq<Opening>, params: map<string, ParamValue>): SearchResponse
  {
    SearchResponse(|rows|, params, rows)
  }

  /** The answer of a search over the inventory rows, in inventory order. */
  function SearchResult(rows: seq<Opening>, q: SearchQuery): (r: Result<SearchResponse, Raised>)
    ensures UnknownCountry(q) ==>
      r == Success(SearchResponse(0, map["country" := PText(q.country.value)], [], NotAvailable))
    ensures !UnknownCountry(q) && r.Success? ==>
      r.value.status == Found && r.value.searchParams == SearchParams(q)
    ensures r.Success? ==> r.value.resultsCount == |r.value.results|
    ensures r.Failure? <==>
      !UnknownCountry(q) && q.daysCount.Some? && !ScoresDefined(Filtered(rows, q), q.daysCount.value)
    ensures r.Failure? ==> r.error == ZeroDivisionError
  {
    if UnknownCountry(q) then
      Success(SearchResponse(0, map["country" := PText(q.country.value)], [], NotAvailable))
    else
      var rows' := Filtered(rows, q);
      match q.daysCount
      case None => Success(Respond(Truncate(rows', q.limit), SearchParams(q)))
      case Some(t) =>
        if FirstZeroDivision(rows', t) < |rows'| then
          assert rows'[FirstZeroDivision(rows', t)] in rows';
          Failure(ZeroDivisionError)
        else
          assert rows'[..|rows'|] == rows';
          Success(Respond(Truncate(Ranked(Rescore(rows', t)), q.limit), SearchParams(q)))
  }

  /**
   * How a search over `all` ends once the predicates have left `rows`: with no
   * stay length the truncated rows; with one, a ZeroDivisionError exactly when
   * some row's score divides by zero, and otherwise the ranked, truncated rows.
   */
  lemma SearchOutcome(all: seq<Opening>, q: SearchQuery, rows: seq<Opening>)
    requires !UnknownCountry(q) && rows == Filtered(all, q)
    ensures q.daysCount.None? ==>
      && SearchResult(all, q) == Success(Respond(Truncate(rows, q.limit), SearchParams(q)))
      && Rescored(all, q) == []
    ensures q.daysCount.Some? ==>
      && Rescored(all, q) == Rescore(rows[..FirstZeroDivision(rows, q.daysCount.value)], q.daysCount.value)
      && (!ScoresDefined(rows, q.daysCount.value) ==> SearchResult(all, q) == Failure(ZeroDivisionError))
      && (ScoresDefined(rows, q.daysCount.value) ==>
            SearchResult(all, q) ==
              Success(Respond(Truncate(Ranked(Rescore(rows, q.daysCount.value)), q.limit), SearchParams(q))))
  {
  }

  /**
   * The rows whose score the search writes, in order: every row that survived
   * the predicates up to the first one whose score divides by zero, each
   * carrying its new score; none when the country is unknown or no stay length
   * is given.
   */
  function Rescored(rows: seq<Opening>, q: SearchQuery): seq<Opening>
  {
    if UnknownCountry(q) || q.daysCount.None? then []
    else
      var rows' := Filtered(rows, q);
      var t := q.daysCount.value;
      Rescore(rows'[..FirstZeroDivision(rows', t)], t)
  }

  /** Every row a search writes back is an inventory row that matches the query, carrying a new score. */
  lemma RescoredRowsMatch(rows: seq<Opening>, q: SearchQuery)
    ensures forall x :: x in Rescored(rows, q) ==>
      exists y :: y in rows && Matches(q, y) && x == y.(rankingScore := x.rankingScore)
  {
    if !UnknownCountry(q) && q.daysCount.Some? {
      var rows' := Filtered(rows, q);
      FilteredMembers(rows, q);
      var t := q.daysCount.value;
      var n := FirstZeroDivision(rows', t);
      var r := Rescore(rows'[..n], t);
      forall x | x in r ensures exists y :: y in rows && Matches(q, y) && x == y.(rankingScore := x.rankingScore) {
        var i :| 0 <= i < |r| && r[i] == x;
        assert rows'[..n][i] in rows';
      }
    }
  }

  /** Every returned row satisfies each supplied predicate and is an inventory row, up to its score. */
  lemma SearchResultsMatch(rows: seq<Opening>, q: SearchQuery)
    requires SearchResult(rows, q).Success?
    ensures forall x :: x in SearchResult(rows, q).value.results ==>
      Matches(q, x) && exists y :: y in rows && x == y.(rankingScore := x.rankingScore)
  {
    var results := SearchResult(rows, q).value.results;
    if !UnknownCountry(q) {
      var rows' := Filtered(rows, q);
      FilteredMembers(rows, q);
      forall x | x in results
        ensures Matches(q, x) && exists y :: y in rows && x == y.(rankingScore := x.rankingScore)
      {
        match q.daysCount
        case None =>
          var trunc := Truncate(rows', q.limit);
          assert x in trunc;
          assert x in rows';
          assert x == x.(rankingScore := x.rankingScore);
        case Some(t) =>
          var scored := Rescore(rows', t);
          var trunc := Truncate(Ranked(scored), q.limit);
          assert x in trunc;
          RankedPermutes(scored);
          assert x in multiset(Ranked(scored));
          assert x in scored;
          var i :| 0 <= i < |scored| && scored[i] == x;
          assert rows'[i] in rows';
          assert x == rows'[i].(rankingScore := x.rankingScore);
      }
    }
  }

  /**
   * With a known country and a stay length whose scores are all defined, the
   * results are the first rows of a stable descending ranking of the scored
   * matches: all of them when there is no limit, at most `limit` of them when
   * the limit is positive.
   */
  lemma SearchRanksThenTruncates(rows: seq<Opening>, q: SearchQuery, t: int)
    requires !UnknownCountry(q) && q.daysCount == Some(t)
    requires ScoresDefined(Filtered(rows, q), t)
    ensures SearchResult(rows, q).Success?
    ensures var scored := Rescore(Filtered(rows, q), t);
      var ranked := Ranked(scored);
      var results := SearchResult(rows, q).value.results;
      && multiset(ranked) == multiset(scored)
      && Descending(ranked)
      && (forall k :: WithKey(ranked, k) == WithKey(scored, k))
      && (q.limit.None? || q.limit == Some(0) ==> results == ranked)
      && (q.limit.Some? && q.limit.value > 0 ==> results == ranked[..Min(q.limit.value, |ranked|)])
  {
    var scored := Rescore(Filtered(rows, q), t);
    RankedPermutes(scored);
    RankedDescending(scored);
    forall k ensures WithKey(Ranked(scored), k) == WithKey(scored, k) {
      RankedStable(scored, k);
    }
  }

  /** No score divides by zero when the target, or every stay, is at least one day. */
  lemma NoZeroDivision(rows: seq<Opening>, q: SearchQuery)
    requires q.daysCount.Some? ==> q.daysCount.value >= 1 || forall r :: r in rows ==> r.DaysCount() >= 1
    ensures SearchResult(rows, q).Success?
  {
    FilteredMembers(rows, q);
  }

  /** Every score is defined when the target, or every stay, is at least one day; a target of 0 or below is then harmless. */
  lemma ScoresDefinedForDayLongStays(rows: seq<Opening>, target: int)
    requires target >= 1 || forall r :: r in rows ==> r.DaysCount() >= 1
    ensures ScoresDefined(rows, target)
  {
  }

  /** A search with no predicates, and no score dividing by zero, returns min(inventory size, limit) rows. */
  lemma UnfilteredSearchCount(rows: seq<Opening>, q: SearchQuery, limit: int)
    requires q.country.None? && q.startDate.None? && q.endDate.None? && q.roomRate.None?
    requires q.limit == Some(limit) && limit > 0
    requires q.daysCount.Some? ==> ScoresDefined(rows, q.daysCount.value)
    ensures SearchResult(rows, q).Success?
    ensures SearchResult(rows, q).value.resultsCount == Min(|rows|, limit)
  {
    FilteredMembers(rows, q);
    if q.daysCount.Some? {
      var t := q.daysCount.value;
      RankedPermutes(Rescore(rows, t));
      assert |Ranked(Rescore(rows, t))| == |multiset(Ranked(Rescore(rows, t)))| == |rows|;
    }
  }

  /** Against a 3-day target, a 3-day stay scores 0 and a 10-day stay 7/10. */
  lemma ScoresOfThreeDayTarget()
    ensures Score(3, 3) == 0.0 && Score(3, 10) == 7.0 / 10.0
  {
  }

  lemma ThreeDayScores(a: Opening, b: Opening)
    requires a.DaysCount() == 3 && b.DaysCount() == 10
    ensures ScoresDefined([a, b], 3)
    ensures Rescore([a, b], 3) == [a.(rankingScore := 0.0), b.(rankingScore := 7.0 / 10.0)]
  {
    ScoresOfThreeDayTarget();
  }

  /** The query of WorstMatchFirst. */
  function JapanThreeDays(): SearchQuery
  {
    SearchQuery(country := Some("Japan"), daysCount := Some(3), limit := Some(10))
  }

  lemma JapanKeepsBoth(a: Opening, b: Opening)
    requires a.country == Japan && b.country == Japan
    ensures !UnknownCountry(JapanThreeDays())
    ensures Filtered([a, b], JapanThreeDays()) == [a, b]
  {
    assert Japan.Value() == "Japan";
    assert Matches(JapanThreeDays(), a) && Matches(JapanThreeDays(), b);
    FilteredMembers([a, b], JapanThreeDays());
  }

  lemma RankedWorstFirst(a: Opening, b: Opening)
    requires a.rankingScore == 0.0 && b.rankingScore == 7.0 / 10.0
    ensures Ranked([a, b]) == [b, a]
  {
    assert Ranked([b]) == [b];
    assert Ranked([a, b]) == Insert(a, [b]);
  }

  lemma JapanRanksWorstFirst(a: Opening, b: Opening)
    requires a.country == Japan && a.DaysCount() == 3
    requires b.country == Japan && b.DaysCount() == 10
    ensures SearchResult([a, b], JapanThreeDays())
      == Success(Respond(Truncate([b.(rankingScore := 7.0 / 10.0), a.(rankingScore := 0.0)], Some(10)),
                         SearchParams(JapanThreeDays())))
  {
    JapanKeepsBoth(a, b);
    ThreeDayScores(a, b);
    SearchOutcome([a, b], JapanThreeDays(), [a, b]);
    RankedWorstFirst(a.(rankingScore := 0.0), b.(rankingScore := 7.0 / 10.0));
  }

  /**
   * Two openings in Japan staying 3 and 10 days, searched for a 3-day stay: both
   * are returned, the 10-day one first (worst match first), and the exact match
   * carries a score of 0.
   */
  lemma WorstMatchFirst(a: Opening, b: Opening)
    requires a.country == Japan && a.DaysCount() == 3
    requires b.country == Japan && b.DaysCount() == 10
    ensures SearchResult([a, b], JapanThreeDays())
      == Success(SearchResponse(2, SearchParams(JapanThreeDays()),
                                [b.(rankingScore := 7.0 / 10.0), a.(rankingScore := 0.0)]))
  {
    JapanRanksWorstFirst(a, b);
    var rows := [b.(rankingScore := 7.0 / 10.0), a.(rankingScore := 0.0)];
    assert Truncate(rows, Some(10)) == rows;
  }
}
