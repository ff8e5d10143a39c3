/**
  The relational schema of the trip-registration store (tables Client, Trip,
  Country, Client_Trip and Country_Trip) as values, and the read-side queries
  over it as functions: the trip list with each trip's countries, a client's
  registered trips, and the number of members of a trip.
 */
module Tables {

  datatype Option<T> = None | Some(value: T)

  /** A DateTime column; the store only copies it. */
  datatype DateTime = DateTime(ticks: int)

  /** A row of the Trip table. */
  datatype Trip = Trip(
    id: int,
    name: string,
    description: string,
    dateFrom: DateTime,
    dateTo: DateTime,
    maxPeople: int)

  /** A row of the Country table. */
  datatype Country = Country(id: int, name: string)

  /** The columns of a Client_Trip row besides its key; `None` stands for a NULL payment date. */
  datatype Registration = Registration(registeredAt: int, paymentDate: Option<int>)

  /** The key of a Client_Trip row: (IdClient, IdTrip). */
  type RegistrationKey = (int, int)

  /** A row of Country_Trip: (IdCountry, IdTrip). */
  type CountryTripKey = (int, int)

  /** A trip as the trip list returns it, with the names of its countries. */
  datatype TripView = TripView(
    id: int,
    name: string,
    description: string,
    dateFrom: DateTime,
    dateTo: DateTime,
    maxPeople: int,
    countries: seq<string>)

  /** A trip a client is registered on, with that registration's dates. */
  datatype RegisteredTripView = RegisteredTripView(
    trip: TripView,
    registeredAt: int,
    paymentDate: Option<int>)

  function TripIds(trips: seq<Trip>): set<int> {
    set t | t in trips :: t.id
  }

  function CountryIds(countries: seq<Country>): set<int> {
    set c | c in countries :: c.id
  }

  /** IdTrip is the primary key of Trip. */
  predicate UniqueTripIds(trips: seq<Trip>) {
    forall i, j :: 0 <= i < j < |trips| ==> trips[i].id != trips[j].id
  }

  // ---------------------------------------------------------------------------
  // Countries of a trip

  /** The names of the countries that Country_Trip links to `tripId`, in Country table order. */
  function CountryNames(countries: seq<Country>, links: set<CountryTripKey>, tripId: int): seq<string> {
    if countries == [] then []
    else
      var last := countries[|countries| - 1];
      CountryNames(countries[..|countries| - 1], links, tripId)
        + (if (last.id, tripId) in links then [last.name] else [])
  }

  /** The country names of a trip are exactly the names of the countries linked to it. */
  lemma {:induction false} CountryNamesExact(countries: seq<Country>, links: set<CountryTripKey>, tripId: int, name: string)
    ensures name in CountryNames(countries, links, tripId)
        <==> exists c :: c in countries && (c.id, tripId) in links && c.name == name
  {
    if countries != [] {
      var init := countries[..|countries| - 1];
      var last := countries[|countries| - 1];
      CountryNamesExact(init, links, tripId, name);
      assert countries == init + [last];
      if name in CountryNames(countries, links, tripId) {
        if name in CountryNames(init, links, tripId) {
          var c :| c in init && (c.id, tripId) in links && c.name == name;
          assert c in countries;
        } else {
          assert last in countries;
        }
      }
    }
  }

  /** Every country linked to a trip, when present in the Country table, is named in its list. */
  lemma CountryNamesComplete(countries: seq<Country>, links: set<CountryTripKey>, tripId: int)
    requires forall k :: k in links ==> k.0 in CountryIds(countries)
    ensures forall k :: k in links && k.1 == tripId ==>
      exists c :: c in countries && c.id == k.0 && c.name in CountryNames(countries, links, tripId)
  {
    forall k | k in links && k.1 == tripId
      ensures exists c :: c in countries && c.id == k.0 && c.name in CountryNames(countries, links, tripId)
    {
      var c :| c in countries && c.id == k.0;
      CountryNamesExact(countries, links, tripId, c.name);
    }
  }

  // ---------------------------------------------------------------------------
  // The trip list

  /** A Trip row with the names of its countries. */
  function ViewOf(t: Trip, countries: seq<Country>, links: set<CountryTripKey>): TripView {
    TripView(t.id, t.name, t.description, t.dateFrom, t.dateTo, t.maxPeople,
             CountryNames(countries, links, t.id))
  }

  /** Every trip, in Trip table order, each with its countries. */
  function TripList(trips: seq<Trip>, countries: seq<Country>, links: set<CountryTripKey>): seq<TripView> {
    if trips == [] then []
    else TripList(trips[..|trips| - 1], countries, links) + [ViewOf(trips[|trips| - 1], countries, links)]
  }

  /** The trip list has one element per trip, in order, each carrying that trip's fields and
      countries. */
  lemma {:induction false} TripListAt(trips: seq<Trip>, countries: seq<Country>, links: set<CountryTripKey>)
    ensures |TripList(trips, countries, links)| == |trips|
    ensures forall k :: 0 <= k < |trips| ==> TripList(trips, countries, links)[k] == ViewOf(trips[k], countries, links)
  {
    if trips != [] {
      var init := trips[..|trips| - 1];
      TripListAt(init, countries, links);
      forall k | 0 <= k < |init| ensures trips[k] == init[k] { }
    }
  }

  /** The first position of a trip with id `id` (FirstOrDefault on the trip list). */
  function IndexOfTrip(views: seq<TripView>, id: int): (r: Option<nat>)
    ensures r.Some? ==> r.value < |views| && views[r.value].id == id
    ensures r.Some? ==> forall j :: 0 <= j < r.value ==> views[j].id != id
    ensures r.None? <==> forall j :: 0 <= j < |views| ==> views[j].id != id
  {
    if views == [] then None
    else if views[0].id == id then Some(0)
    else
      match IndexOfTrip(views[1..], id)
      case None => None
      case Some(k) => Some(k + 1)
  }

  /** The position of the first Trip row with id `id`. */
  function FirstTripIndex(trips: seq<Trip>, id: int): (k: nat)
    requires id in TripIds(trips)
    ensures k < |trips| && trips[k].id == id
    ensures forall j :: 0 <= j < k ==> trips[j].id != id
  {
    if trips[0].id == id then 0
    else
      assert trips == [trips[0]] + trips[1..];
      1 + FirstTripIndex(trips[1..], id)
  }

  /** The capacity of the first trip with id `id`. */
  function MaxPeopleOf(trips: seq<Trip>, id: int): (m: int)
    requires id in TripIds(trips)
    ensures exists k :: 0 <= k < |trips| && trips[k].id == id && m == trips[k].maxPeople
                        && forall j :: 0 <= j < k ==> trips[j].id != id
  {
    trips[FirstTripIndex(trips, id)].maxPeople
  }

  /** With unique trip ids, the capacity looked up by id is that trip's own. */
  lemma {:induction false} MaxPeopleOfMember(trips: seq<Trip>, k: nat)
    requires UniqueTripIds(trips) && k < |trips|
    ensures trips[k].id in TripIds(trips)
    ensures MaxPeopleOf(trips, trips[k].id) == trips[k].maxPeople
  {
    assert trips[k] in trips;
    if k > 0 {
      assert trips[1..][k - 1] == trips[k];
      MaxPeopleOfMember(trips[1..], k - 1);
    }
  }

  /** A trip id occurs in the trip list exactly when it is the id of a Trip row. */
  lemma TripListIds(trips: seq<Trip>, countries: seq<Country>, links: set<CountryTripKey>, id: int)
    ensures IndexOfTrip(TripList(trips, countries, links), id).Some? <==> id in TripIds(trips)
    ensures IndexOfTrip(TripList(trips, countries, links), id).Some? ==>
      var k := IndexOfTrip(TripList(trips, countries, links), id).value;
      k < |trips| && trips[k].id == id
  {
    TripListAt(trips, countries, links);
    var views := TripList(trips, countries, links);
    if id in TripIds(trips) {
      var t :| t in trips && t.id == id;
      var k :| 0 <= k < |trips| && trips[k] == t;
      assert views[k].id == id;
    }
  }

  // ---------------------------------------------------------------------------
  // Members of a trip

  /** The number of Client_Trip rows of trip `tripId`. */
  function MemberCount(reg: map<RegistrationKey, Registration>, tripId: int): nat {
    |set k | k in reg.Keys && k.1 == tripId|
  }

  /** Inserting a new registration adds one member to its trip and none to any other. */
  lemma CountAfterInsert(reg: map<RegistrationKey, Registration>, key: RegistrationKey, v: Registration, tripId: int)
    requires key !in reg
    ensures MemberCount(reg[key := v], tripId)
         == if tripId == key.1 then MemberCount(reg, tripId) + 1 else MemberCount(reg, tripId)
  {
    var before := set k | k in reg.Keys && k.1 == tripId;
    var after := set k | k in reg[key := v].Keys && k.1 == tripId;
    if tripId == key.1 {
      assert after == before + {key};
    } else {
      assert after == before;
    }
  }

  /** Deleting a registration removes one member from its trip and none from any other. */
  lemma CountAfterRemove(reg: map<RegistrationKey, Registration>, key: RegistrationKey, tripId: int)
    requires key in reg
    ensures MemberCount(reg - {key}, tripId)
         == if tripId == key.1 then MemberCount(reg, tripId) - 1 else MemberCount(reg, tripId)
  {
    var before := set k | k in reg.Keys && k.1 == tripId;
    var after := set k | k in (reg - {key}).Keys && k.1 == tripId;
    if tripId == key.1 {
      assert before == after + {key};
    } else {
      assert after == before;
    }
  }

  // ---------------------------------------------------------------------------
  // The trips of a client

  /** A trip joined with the registration of a client on it. */
  function RegisteredViewOf(t: Trip, countries: seq<Country>, links: set<CountryTripKey>, r: Registration): RegisteredTripView {
    RegisteredTripView(ViewOf(t, countries, links), r.registeredAt, r.paymentDate)
  }

  /** Trip joined with Client_Trip for client `clientId`, in Trip table order. */
  function RegisteredTrips(trips: seq<Trip>, countries: seq<Country>, links: set<CountryTripKey>,
                           reg: map<RegistrationKey, Registration>, clientId: int): seq<RegisteredTripView>
  {
    if trips == [] then []
    else
      var last := trips[|trips| - 1];
      RegisteredTrips(trips[..|trips| - 1], countries, links, reg, clientId)
        + (if (clientId, last.id) in reg
           then [RegisteredViewOf(last, countries, links, reg[(clientId, last.id)])]
           else [])
  }

  /** An element is in the client's trip list exactly when it is a trip the client is
      registered on, carrying that registration's dates. */
  lemma {:induction false} RegisteredTripsExact(trips: seq<Trip>, countries: seq<Country>, links: set<CountryTripKey>,
                                                reg: map<RegistrationKey, Registration>, clientId: int, e: RegisteredTripView)
    ensures e in RegisteredTrips(trips, countries, links, reg, clientId)
        <==> exists t :: t in trips && (clientId, t.id) in reg
                         && e == RegisteredViewOf(t, countries, links, reg[(clientId, t.id)])
  {
    if trips != [] {
      var init := trips[..|trips| - 1];
      var last := trips[|trips| - 1];
      RegisteredTripsExact(init, countries, links, reg, clientId, e);
      assert trips == init + [last];
      if e in RegisteredTrips(trips, countries, links, reg, clientId) {
        if e in RegisteredTrips(init, countries, links, reg, clientId) {
          var t :| t in init && (clientId, t.id) in reg
                   && e == RegisteredViewOf(t, countries, links, reg[(clientId, t.id)]);
          assert t in trips;
        } else {
          assert last in trips;
        }
      }
    }
  }

  /** The Client_Trip keys of `clientId` whose trip is among `ids`. */
  function ClientKeys(reg: map<RegistrationKey, Registration>, clientId: int, ids: set<int>): set<RegistrationKey> {
    set k | k in reg.Keys && k.0 == clientId && k.1 in ids
  }

  /** With unique trip ids, the client's trip list has exactly one element per registration of
      that client on an existing trip. */
  lemma {:induction false} RegisteredTripsCount(trips: seq<Trip>, countries: seq<Country>, links: set<CountryTripKey>,
                                                reg: map<RegistrationKey, Registration>, clientId: int)
    requires UniqueTripIds(trips)
    ensures |RegisteredTrips(trips, countries, links, reg, clientId)| == |ClientKeys(reg, clientId, TripIds(trips))|
  {
    if trips != [] {
      var init := trips[..|trips| - 1];
      var last := trips[|trips| - 1];
      RegisteredTripsCount(init, countries, links, reg, clientId);
      assert trips == init + [last];
      assert TripIds(trips) == TripIds(init) + {last.id};
      assert last.id !in TripIds(init) by {
        forall t | t in init ensures t.id != last.id {
          var j :| 0 <= j < |init| && init[j] == t;
          assert trips[j] == t;
        }
      }
      var key := (clientId, last.id);
      if key in reg {
        assert ClientKeys(reg, clientId, TripIds(trips)) == ClientKeys(reg, clientId, TripIds(init)) + {key};
      } else {
        assert ClientKeys(reg, clientId, TripIds(trips)) == ClientKeys(reg, clientId, TripIds(init));
      }
    }
  }

  /** When every registration names an existing trip, a client's trip list is empty exactly
      when the client has no registration at all. */
  lemma RegisteredTripsEmpty(trips: seq<Trip>, countries: seq<Country>, links: set<CountryTripKey>,
                             reg: map<RegistrationKey, Registration>, clientId: int)
    requires forall k :: k in reg ==> k.1 in TripIds(trips)
    ensures RegisteredTrips(trips, countries, links, reg, clientId) == []
        <==> forall k :: k in reg ==> k.0 != clientId
  {
    var list := RegisteredTrips(trips, countries, links, reg, clientId);
    if list != [] {
      RegisteredTripsExact(trips, countries, links, reg, clientId, list[0]);
    }
    if k :| k in reg && k.0 == clientId {
      var t :| t in trips && t.id == k.1;
      RegisteredTripsExact(trips, countries, links, reg, clientId, RegisteredViewOf(t, countries, links, reg[k]));
    }
  }

  // ---------------------------------------------------------------------------
  // Registration dates

  /** The date is one a calendar clock can show. */
  predicate ValidDate(year: int, month: int, day: int) {
    1 <= year <= 9999 && 1 <= month <= 12 && 1 <= day <= 31
  }

  /** The date written as the eight digits yyyyMMdd, read as an integer. */
  function EncodeDate(year: int, month: int, day: int): int {
    year * 10000 + month * 100 + day
  }

  /** The encoding keeps year, month and day apart: each can be read back from it. */
  lemma DateRoundTrip(year: int, month: int, day: int)
    requires ValidDate(year, month, day)
    ensures EncodeDate(year, month, day) / 10000 == year
    ensures EncodeDate(year, month, day) / 100 % 100 == month
    ensures EncodeDate(year, month, day) % 100 == day
    ensures 10101 <= EncodeDate(year, month, day) <= 99991231
  {
    var r := EncodeDate(year, month, day);
    assert r == (year * 100 + month) * 100 + day;
    assert r / 100 == year * 100 + month;
  }

  /** Comparing encoded dates as integers compares the dates chronologically. */
  lemma DateOrder(y1: int, m1: int, d1: int, y2: int, m2: int, d2: int)
    requires ValidDate(y1, m1, d1) && ValidDate(y2, m2, d2)
    ensures EncodeDate(y1, m1, d1) < EncodeDate(y2, m2, d2)
        <==> y1 < y2 || (y1 == y2 && (m1 < m2 || (m1 == m2 && d1 < d2)))
  {
  }
}
