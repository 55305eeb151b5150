/**
 * The constant value sets of the synthetic inventory: hotel companies, lodging
 * classes with their nightly rate ranges, and the countries an opening can be in.
 */
module Enums {
  import opened Wrappers

  datatype HotelCompany =
    | JinJiang | Wyndham | Marriott | Huazhu | Choice
    | Hilton | Ihg | Btg | Accor | Bwh

  datatype LodgingClass = Studio | OneBed | TwoBed | ThreeBed | Suite | Cabin | Luxury

  /** The lodging classes in declaration order. */
  const LodgingClasses: seq<LodgingClass> := [Studio, OneBed, TwoBed, ThreeBed, Suite, Cabin, Luxury]

  /** The (low, high) nightly rate range of a lodging class; every class has one. */
  function RateRange(lc: LodgingClass): (range: (int, int))
    ensures 0 < range.0 < range.1
  {
    match lc
    case Studio => (200, 400)
    case OneBed => (300, 600)
    case TwoBed => (400, 800)
    case ThreeBed => (600, 1200)
    case Suite => (800, 1500)
    case Cabin => (1000, 1800)
    case Luxury => (1500, 3000)
  }

  /** Taken in declaration order, both the lows and the highs of the ranges strictly increase. */
  lemma RateRangesIncrease(i: int, j: int)
    requires 0 <= i < j < |LodgingClasses|
    ensures RateRange(LodgingClasses[i]).0 < RateRange(LodgingClasses[j]).0
    ensures RateRange(LodgingClasses[i]).1 < RateRange(LodgingClasses[j]).1
  {
  }

  /** The enumeration lists every lodging class exactly once. */
  lemma LodgingClassesEnumerated(lc: LodgingClass)
    ensures |LodgingClasses| == 7
    ensures lc in LodgingClasses
    ensures forall i, j :: 0 <= i < j < |LodgingClasses| ==> LodgingClasses[i] != LodgingClasses[j]
  {
  }

  datatype Country =
    | India | China | UnitedStates | Indonesia | Pakistan | Nigeria | Brazil | Bangladesh
    | Russia | Mexico | Japan | Philippines | Ethiopia | Congo | Egypt | Vietnam | Iran
    | Turkey | Germany | France | UnitedKingdom | Tanzania | Thailand | SouthAfrica | Italy
    | Colombia | Kenya | Myanmar | SouthKorea | Sudan
  {
    /** The string value of the member, which is what the member compares equal to. */
    function Value(): string
    {
      match this
      case India => "India"
      case China => "China"
      case UnitedStates => "United States"
      case Indonesia => "Indonesia"
      case Pakistan => "Pakistan"
      case Nigeria => "Nigeria"
      case Brazil => "Brazil"
      case Bangladesh => "Bangladesh"
      case Russia => "Russia"
      case Mexico => "Mexico"
      case Japan => "Japan"
      case Philippines => "Philippines"
      case Ethiopia => "Ethiopia"
      case Congo => "Democratic Republic of the Congo"
      case Egypt => "Egypt"
      case Vietnam => "Vietnam"
      case Iran => "Iran"
      case Turkey => "Turkey"
      case Germany => "Germany"
      case France => "France"
      case UnitedKingdom => "United Kingdom"
      case Tanzania => "Tanzania"
      case Thailand => "Thailand"
      case SouthAfrica => "South Africa"
      case Italy => "Italy"
      case Colombia => "Colombia"
      case Kenya => "Kenya"
      case Myanmar => "Myanmar"
      case SouthKorea => "South Korea"
      case Sudan => "Sudan"
    }
  }

  /** The countries in declaration order. */
  const Countries: seq<Country> :=
    [ India, China, UnitedStates, Indonesia, Pakistan, Nigeria, Brazil, Bangladesh,
      Russia, Mexico, Japan, Philippines, Ethiopia, Congo, Egypt, Vietnam, Iran,
      Turkey, Germany, France, UnitedKingdom, Tanzania, Thailand, SouthAfrica, Italy,
      Colombia, Kenya, Myanmar, SouthKorea, Sudan ]

  /** The first member of `cs` whose value is `s`, if any. */
  function FindCountry(cs: seq<Country>, s: string): (c: Option<Country>)
    ensures c.Some? ==> c.value in cs && c.value.Value() == s
    ensures c.None? ==> forall x :: x in cs ==> x.Value() != s
  {
    if cs == [] then None
    else if cs[0].Value() == s then Some(cs[0])
    else FindCountry(cs[1..], s)
  }

  /** The lookup of a string in the value-to-member map of Country. */
  function ParseCountry(s: string): (c: Option<Country>)
    ensures c.Some? ==> c.value.Value() == s
    ensures c.None? <==> forall x: Country :: x.Value() != s
  {
    assert forall x: Country :: x in Countries by {
      forall x: Country ensures x in Countries {
        CountriesListed(x);
      }
    }
    FindCountry(Countries, s)
  }

  /** Every member is listed in Countries. */
  lemma CountriesListed(c: Country)
    ensures c in Countries
  {
  }

  // Signature, FromSignature and the Early/Middle/Late splits below restate the
  // country table of Value() only to keep the solver cost of ValueInjective and
  // OrdinalOfListed down: a changed country value must be edited in both places.

  /** The length and first two characters of a country value. */
  function Signature(s: string): (int, char, char)
    requires |s| >= 2
  {
    (|s|, s[0], s[1])
  }

  /** The member whose value has the given signature, if any. */
  function FromSignature(sig: (int, char, char)): Option<Country>
  {
    if sig.0 == 4 then
      if sig.1 == 'I' && sig.2 == 'r' then Some(Iran) else None
    else if sig.0 == 5 then
      if sig.1 == 'I' && sig.2 == 'n' then Some(India) else if sig.1 == 'C' && sig.2 == 'h' then Some(China) else if sig.1 == 'J' && sig.2 == 'a' then Some(Japan) else if sig.1 == 'E' && sig.2 == 'g' then Some(Egypt) else if sig.1 == 'I' && sig.2 == 't' then Some(Italy) else if sig.1 == 'K' && sig.2 == 'e' then Some(Kenya) else if sig.1 == 'S' && sig.2 == 'u' then Some(Sudan) else None
    else if sig.0 == 6 then
      if sig.1 == 'B' && sig.2 == 'r' then Some(Brazil) else if sig.1 == 'R' && sig.2 == 'u' then Some(Russia) else if sig.1 == 'M' && sig.2 == 'e' then Some(Mexico) else if sig.1 == 'T' && sig.2 == 'u' then Some(Turkey) else if sig.1 == 'F' && sig.2 == 'r' then Some(France) else None
    else if sig.0 == 7 then
      if sig.1 == 'N' && sig.2 == 'i' then Some(Nigeria) else if sig.1 == 'V' && sig.2 == 'i' then Some(Vietnam) else if sig.1 == 'G' && sig.2 == 'e' then Some(Germany) else if sig.1 == 'M' && sig.2 == 'y' then Some(Myanmar) else None
    else if sig.0 == 8 then
      if sig.1 == 'P' && sig.2 == 'a' then Some(Pakistan) else if sig.1 == 'E' && sig.2 == 't' then Some(Ethiopia) else if sig.1 == 'T' && sig.2 == 'a' then Some(Tanzania) else if sig.1 == 'T' && sig.2 == 'h' then Some(Thailand) else if sig.1 == 'C' && sig.2 == 'o' then Some(Colombia) else None
    else if sig.0 == 9 then
      if sig.1 == 'I' && sig.2 == 'n' then Some(Indonesia) else None
    else if sig.0 == 10 then
      if sig.1 == 'B' && sig.2 == 'a' then Some(Bangladesh) else None
    else if sig.0 == 11 then
      if sig.1 == 'P' && sig.2 == 'h' then Some(Philippines) else if sig.1 == 'S' && sig.2 == 'o' then Some(SouthKorea) else None
    else if sig.0 == 12 then
      if sig.1 == 'S' && sig.2 == 'o' then Some(SouthAfrica) else None
    else if sig.0 == 13 then
      if sig.1 == 'U' && sig.2 == 'n' then Some(UnitedStates) else None
    else if sig.0 == 14 then
      if sig.1 == 'U' && sig.2 == 'n' then Some(UnitedKingdom) else None
    else if sig.0 == 32 then
      if sig.1 == 'D' && sig.2 == 'e' then Some(Congo) else None
    else None
  }

  /** SignatureIdentifies for the first ten members in declaration order. */
  lemma SignatureIdentifiesEarly(c: Country)
    requires c == India || c == China || c == UnitedStates || c == Indonesia || c == Pakistan || c == Nigeria || c == Brazil || c == Bangladesh || c == Russia || c == Mexico
    ensures |c.Value()| >= 2 && FromSignature(Signature(c.Value())) == Some(c)
  {
  }

  /** SignatureIdentifies for the second ten members in declaration order. */
  lemma SignatureIdentifiesMiddle(c: Country)
    requires c == Japan || c == Philippines || c == Ethiopia || c == Congo || c == Egypt || c == Vietnam || c == Iran || c == Turkey || c == Germany || c == France
    ensures |c.Value()| >= 2 && FromSignature(Signature(c.Value())) == Some(c)
  {
  }

  /** SignatureIdentifies for the third ten members in declaration order. */
  lemma SignatureIdentifiesLate(c: Country)
    requires c == UnitedKingdom || c == Tanzania || c == Thailand || c == SouthAfrica || c == Italy || c == Colombia || c == Kenya || c == Myanmar || c == SouthKorea || c == Sudan
    ensures |c.Value()| >= 2 && FromSignature(Signature(c.Value())) == Some(c)
  {
  }

  /** The length and first two characters of a member's value identify the member. */
  lemma SignatureIdentifies(c: Country)
    ensures |c.Value()| >= 2 && FromSignature(Signature(c.Value())) == Some(c)
  {
    match c
    case India | China | UnitedStates | Indonesia | Pakistan | Nigeria | Brazil | Bangladesh | Russia | Mexico =>
      SignatureIdentifiesEarly(c);
    case Japan | Philippines | Ethiopia | Congo | Egypt | Vietnam | Iran | Turkey | Germany | France =>
      SignatureIdentifiesMiddle(c);
    case UnitedKingdom | Tanzania | Thailand | SouthAfrica | Italy | Colombia | Kenya | Myanmar | SouthKorea | Sudan =>
      SignatureIdentifiesLate(c);
  }


  /** Distinct members have distinct values. */
  lemma ValueInjective(a: Country, b: Country)
    ensures a.Value() == b.Value() ==> a == b
  {
    SignatureIdentifies(a);
    SignatureIdentifies(b);
  }

  /** The position of a member in declaration order. */
  function Ordinal(c: Country): nat
  {
    match c
    case India => 0
    case China => 1
    case UnitedStates => 2
    case Indonesia => 3
    case Pakistan => 4
    case Nigeria => 5
    case Brazil => 6
    case Bangladesh => 7
    case Russia => 8
    case Mexico => 9
    case Japan => 10
    case Philippines => 11
    case Ethiopia => 12
    case Congo => 13
    case Egypt => 14
    case Vietnam => 15
    case Iran => 16
    case Turkey => 17
    case Germany => 18
    case France => 19
    case UnitedKingdom => 20
    case Tanzania => 21
    case Thailand => 22
    case SouthAfrica => 23
    case Italy => 24
    case Colombia => 25
    case Kenya => 26
    case Myanmar => 27
    case SouthKorea => 28
    case Sudan => 29
  }

  /** OrdinalOfListed for the first ten positions. */
  lemma OrdinalOfListedEarly(i: int)
    requires 0 <= i < 10
    ensures Ordinal(Countries[i]) == i
  {
  }

  /** OrdinalOfListed for the second ten positions. */
  lemma OrdinalOfListedMiddle(i: int)
    requires 10 <= i < 20
    ensures Ordinal(Countries[i]) == i
  {
  }

  /** OrdinalOfListed for the third ten positions. */
  lemma OrdinalOfListedLate(i: int)
    requires 20 <= i < 30
    ensures Ordinal(Countries[i]) == i
  {
  }

  /** The i-th listed country is the member declared i-th. */
  lemma OrdinalOfListed(i: int)
    requires 0 <= i < |Countries|
    ensures Ordinal(Countries[i]) == i
  {
    if i < 10 {
      OrdinalOfListedEarly(i);
    } else if i < 20 {
      OrdinalOfListedMiddle(i);
    } else {
      OrdinalOfListedLate(i);
    }
  }

  /** Country is a fixed set of 30 members, each listed once in declaration order. */
  lemma CountriesEnumerated(c: Country)
    ensures |Countries| == 30
    ensures c in Countries
    ensures forall i, j :: 0 <= i < j < |Countries| ==> Countries[i] != Countries[j]
  {
    CountriesListed(c);
    forall i, j | 0 <= i < j < |Countries|
      ensures Countries[i] != Countries[j]
    {
      OrdinalOfListed(i);
      OrdinalOfListed(j);
    }
  }

  /** The 30 members have 30 distinct values. */
  lemma CountryValuesDistinct(i: int, j: int)
    requires 0 <= i < j < |Countries|
    ensures Countries[i].Value() != Countries[j].Value()
  {
    CountriesEnumerated(India);
    ValueInjective(Countries[i], Countries[j]);
  }
}
