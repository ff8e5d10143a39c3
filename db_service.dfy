/**
  The data-access service of the trip-registration API, over an in-memory store.

  Each operation runs its guards in a fixed order, stopping at the first that
  fails: the client exists, the trip exists, the trip is not full. Then it
  applies exactly one change to the store, or it reports a typed failure and
  leaves the store as it was. Operations are atomic and run one at a time.
 */
module DbService {
  import opened Tables
  import opened ClientValidation

  /** A row of the Client table together with its generated id. */
  datatype Client = Client(
    id: int,
    firstName: string,
    lastName: string,
    email: string,
    telephone: string,
    pesel: string)

  /** What a not-found failure reports as missing. */
  datatype Missing = ClientMissing | TripMissing | RegistrationMissing | NoRegisteredTrips

  /** The failures of the service: a missing entity, a full trip, and the store's rejection
      of a second Client_Trip row with the same key. */
  datatype Failure = NotFound(what: Missing) | MaxMembersReached | DuplicateKey

  datatype Status = Success | Failed(failure: Failure)

  datatype Result<T> = Ok(value: T) | Err(failure: Failure)

  /** The integrity constraints the store's schema enforces: IdTrip is unique, Client_Trip
      refers to existing clients and trips, Country_Trip to existing countries and trips,
      and every client id lies below the next identity value. */
  ghost predicate Schema(clients: map<int, ClientAdd>, trips: seq<Trip>, countries: seq<Country>,
                         countryTrip: set<CountryTripKey>, clientTrip: map<RegistrationKey, Registration>,
                         nextClientId: int)
  {
    && UniqueTripIds(trips)
    && (forall k :: k in clientTrip ==> k.0 in clients && k.1 in TripIds(trips))
    && (forall k :: k in countryTrip ==> k.0 in CountryIds(countries) && k.1 in TripIds(trips))
    && (forall id :: id in clients ==> id < nextClientId)
  }

  class Database {
    var clients: map<int, ClientAdd>
    var trips: seq<Trip>
    var countries: seq<Country>
    var countryTrip: set<CountryTripKey>
    var clientTrip: map<RegistrationKey, Registration>
    /** The identity seed of Client: the id the next inserted client receives. */
    var nextClientId: int

    ghost predicate Valid()
      reads this
    {
      Schema(clients, trips, countries, countryTrip, clientTrip, nextClientId)
    }

    /** No trip has more registrations than its capacity. */
    ghost predicate WithinCapacity()
      reads this
    {
      forall k :: 0 <= k < |trips| ==> MemberCount(clientTrip, trips[k].id) <= trips[k].maxPeople
    }

    constructor (clients: map<int, ClientAdd>, trips: seq<Trip>, countries: seq<Country>,
                 countryTrip: set<CountryTripKey>, clientTrip: map<RegistrationKey, Registration>,
                 nextClientId: int)
      requires Schema(clients, trips, countries, countryTrip, clientTrip, nextClientId)
      ensures Valid()
      ensures this.clients == clients && this.trips == trips && this.countries == countries
      ensures this.countryTrip == countryTrip && this.clientTrip == clientTrip
      ensures this.nextClientId == nextClientId
    {
      this.clients := clients;
      this.trips := trips;
      this.countries := countries;
      this.countryTrip := countryTrip;
      this.clientTrip := clientTrip;
      this.nextClientId := nextClientId;
    }

    /** The names of the countries of a trip, read row by row. */
    method GetCountriesByTripId(tripId: int) returns (names: seq<string>)
      ensures names == CountryNames(countries, countryTrip, tripId)
    {
      names := [];
      var i := 0;
      while i < |countries|
        invariant 0 <= i <= |countries|
        invariant names == CountryNames(countries[..i], countryTrip, tripId)
      {
        assert countries[..i + 1][..i] == countries[..i];
        if (countries[i].id, tripId) in countryTrip {
          names := names + [countries[i].name];
        }
        i := i + 1;
      }
      assert countries[..i] == countries;
    }

    /** Every trip, in table order, each with its countries. */
    method GetTrips() returns (result: seq<TripView>)
      ensures result == TripList(trips, countries, countryTrip)
    {
      result := [];
      var i := 0;
      while i < |trips|
        invariant 0 <= i <= |trips|
        invariant result == TripList(trips[..i], countries, countryTrip)
      {
        var t := trips[i];
        var names := GetCountriesByTripId(t.id);
        assert trips[..i + 1][..i] == trips[..i];
        result := result + [TripView(t.id, t.name, t.description, t.dateFrom, t.dateTo, t.maxPeople, names)];
        i := i + 1;
      }
      assert trips[..i] == trips;
    }

    method DoesClientExist(clientId: int) returns (found: bool)
      ensures found <==> clientId in clients
    {
      found := clientId in clients;
    }

    method GetCurrentNumberOfTripMembers(tripId: int) returns (count: nat)
      ensures count == MemberCount(clientTrip, tripId)
    {
      count := |set k | k in clientTrip.Keys && k.1 == tripId|;
    }

    /** The trips a client is registered on. A missing client and a client without
        registrations both fail with NotFound. */
    method GetTripsByClientId(clientId: int) returns (r: Result<seq<RegisteredTripView>>)
      requires Valid()
      ensures clientId !in clients ==> r == Err(NotFound(ClientMissing))
      ensures clientId in clients && (forall k :: k in clientTrip ==> k.0 != clientId)
              ==> r == Err(NotFound(NoRegisteredTrips))
      ensures r.Ok? <==> clientId in clients && exists k :: k in clientTrip && k.0 == clientId
      ensures r.Ok? ==> r.value == RegisteredTrips(trips, countries, countryTrip, clientTrip, clientId)
    {
      var clientExists := DoesClientExist(clientId);
      if !clientExists {
        return Err(NotFound(ClientMissing));
      }
      var result := [];
      var i := 0;
      while i < |trips|
        invariant 0 <= i <= |trips|
        invariant result == RegisteredTrips(trips[..i], countries, countryTrip, clientTrip, clientId)
      {
        var t := trips[i];
        assert trips[..i + 1][..i] == trips[..i];
        if (clientId, t.id) in clientTrip {
          var row := clientTrip[(clientId, t.id)];
          var names := GetCountriesByTripId(t.id);
          result := result + [RegisteredTripView(
            TripView(t.id, t.name, t.description, t.dateFrom, t.dateTo, t.maxPeople, names),
            row.registeredAt, row.paymentDate)];
        }
        i := i + 1;
      }
      assert trips[..i] == trips;
      RegisteredTripsEmpty(trips, countries, countryTrip, clientTrip, clientId);
      if |result| == 0 {
        return Err(NotFound(NoRegisteredTrips));
      }
      r := Ok(result);
    }

    /** Inserts a client under the next identity value and returns it. */
    method AddClient(input: ClientAdd) returns (c: Client)
      requires Valid()
      modifies this`clients, this`nextClientId
      ensures Valid()
      ensures c.id !in old(clients)
      ensures c == Client(c.id, input.firstName, input.lastName, input.email, input.telephone, input.pesel)
      ensures clients == old(clients)[c.id := input]
    {
      var id := nextClientId;
      clients := clients[id := input];
      nextClientId := nextClientId + 1;
      c := Client(id, input.firstName, input.lastName, input.email, input.telephone, input.pesel);
    }

    /** Registers a client on a trip, dated (year, month, day). */
    method AddTripToClient(clientId: int, tripId: int, year: int, month: int, day: int) returns (status: Status)
      requires Valid() && ValidDate(year, month, day)
      modifies this`clientTrip
      ensures Valid()
      ensures old(WithinCapacity()) ==> WithinCapacity()
      ensures clientId !in clients ==> status == Failed(NotFound(ClientMissing))
      ensures clientId in clients && tripId !in TripIds(trips) ==> status == Failed(NotFound(TripMissing))
      ensures clientId in clients && tripId in TripIds(trips) ==>
        status == (if MemberCount(old(clientTrip), tripId) == MaxPeopleOf(trips, tripId) then Failed(MaxMembersReached)
                   else if (clientId, tripId) in old(clientTrip) then Failed(DuplicateKey)
                   else Success)
      ensures status == Success ==>
        clientTrip == old(clientTrip)[(clientId, tripId) := Registration(EncodeDate(year, month, day), None)]
      ensures status != Success ==> clientTrip == old(clientTrip)
    {
      var clientExists := DoesClientExist(clientId);
      if !clientExists {
        return Failed(NotFound(ClientMissing));
      }
      var all := GetTrips();
      TripListIds(trips, countries, countryTrip, tripId);
      var found := IndexOfTrip(all, tripId);
      if found.None? {
        return Failed(NotFound(TripMissing));
      }
      var count := GetCurrentNumberOfTripMembers(tripId);
      var again := GetTrips();
      var first := IndexOfTrip(again, tripId);
      TripListAt(trips, countries, countryTrip);
      MaxPeopleOfMember(trips, first.value);
      if count == again[first.value].maxPeople {
        return Failed(MaxMembersReached);
      }
      var key := (clientId, tripId);
      if key in clientTrip {
        // the primary key of Client_Trip rejects the insert
        return Failed(DuplicateKey);
      }
      ghost var before := clientTrip;
      clientTrip := clientTrip[key := Registration(EncodeDate(year, month, day), None)];
      forall k | 0 <= k < |trips|
        ensures MemberCount(clientTrip, trips[k].id)
             == if trips[k].id == tripId then MemberCount(before, tripId) + 1 else MemberCount(before, trips[k].id)
      {
        CountAfterInsert(before, key, Registration(EncodeDate(year, month, day), None), trips[k].id);
      }
      forall k | 0 <= k < |trips| && trips[k].id == tripId
        ensures trips[k].maxPeople == MaxPeopleOf(trips, tripId)
      {
        MaxPeopleOfMember(trips, k);
      }
      status := Success;
    }

    /** Cancels the registration of a client on a trip. */
    method RemoveTripFromClient(clientId: int, tripId: int) returns (status: Status)
      requires Valid()
      modifies this`clientTrip
      ensures Valid()
      ensures old(WithinCapacity()) ==> WithinCapacity()
      ensures clientId !in clients ==> status == Failed(NotFound(ClientMissing))
      ensures clientId in clients && tripId !in TripIds(trips) ==> status == Failed(NotFound(TripMissing))
      ensures clientId in clients && tripId in TripIds(trips) ==>
        status == (if (clientId, tripId) in old(clientTrip) then Success else Failed(NotFound(RegistrationMissing)))
      ensures status == Success ==> clientTrip == old(clientTrip) - {(clientId, tripId)}
      ensures status != Success ==> clientTrip == old(clientTrip)
    {
      var clientExists := DoesClientExist(clientId);
      if !clientExists {
        return Failed(NotFound(ClientMissing));
      }
      var all := GetTrips();
      TripListIds(trips, countries, countryTrip, tripId);
      var found := IndexOfTrip(all, tripId);
      if found.None? {
        return Failed(NotFound(TripMissing));
      }
      var key := (clientId, tripId);
      var rowsAffected := if key in clientTrip then 1 else 0;
      ghost var before := clientTrip;
      clientTrip := clientTrip - {key};
      if rowsAffected == 0 {
        assert clientTrip == before;
        return Failed(NotFound(RegistrationMissing));
      }
      forall k | 0 <= k < |trips|
        ensures MemberCount(clientTrip, trips[k].id) <= MemberCount(before, trips[k].id)
      {
        CountAfterRemove(before, key, trips[k].id);
      }
      status := Success;
    }
  }

  /** Client 1 and client 2 exist; trip 5 has room for one and no registrations. Client 1
      registers, client 2 then finds the trip full; client 1 unregisters, and a second
      unregistration finds nothing to remove. */
  method CapacityScenario() returns (r1: Status, r2: Status, u1: Status, u2: Status)
    ensures r1 == Success && r2 == Failed(MaxMembersReached)
    ensures u1 == Success && u2 == Failed(NotFound(RegistrationMissing))
  {
    var anna := ClientAdd("Anna", "Nowak", "anna@mail.pl", "+48123456789", "90010112345");
    var jan := ClientAdd("Jan", "Kowalski", "jan@mail.pl", "+48987654321", "85020254321");
    var trip := Trip(5, "Alps", "Hiking", DateTime(0), DateTime(1), 1);
    assert TripIds([trip]) == {5};
    var db := new Database(map[1 := anna, 2 := jan], [trip], [], {}, map[], 3);
    assert MemberCount(db.clientTrip, 5) == 0 by {
      assert (set k | k in db.clientTrip.Keys && k.1 == 5) == {};
    }
    r1 := db.AddTripToClient(1, 5, 2024, 6, 1);
    CountAfterInsert(map[], (1, 5), Registration(EncodeDate(2024, 6, 1), None), 5);
    r2 := db.AddTripToClient(2, 5, 2024, 6, 2);
    u1 := db.RemoveTripFromClient(1, 5);
    u2 := db.RemoveTripFromClient(1, 5);
  }

  /** A registration followed by its cancellation leaves Client_Trip as it was, and cancelling
      once more finds nothing to remove. */
  method RegisterThenUnregister(db: Database, clientId: int, tripId: int, year: int, month: int, day: int)
    returns (registered: Status, removed: Status, removedAgain: Status)
    requires db.Valid() && ValidDate(year, month, day)
    modifies db
    ensures db.Valid()
    ensures registered == Success ==> removed == Success && db.clientTrip == old(db.clientTrip)
    ensures registered == Success ==> removedAgain == Failed(NotFound(RegistrationMissing))
  {
    registered := db.AddTripToClient(clientId, tripId, year, month, day);
    removed := db.RemoveTripFromClient(clientId, tripId);
    if registered == Success {
      assert db.clientTrip == old(db.clientTrip);
    }
    removedAgain := db.RemoveTripFromClient(clientId, tripId);
  }

  /** A new client receives an id no client had, and is found under it afterwards. */
  method NewClientScenario(db: Database, input: ClientAdd) returns (c: Client, found: bool)
    requires db.Valid()
    modifies db
    ensures c.id !in old(db.clients) && found
  {
    c := db.AddClient(input);
    found := db.DoesClientExist(c.id);
  }
}
