# Trip registration store and client-input validators, in Dafny

This project models the core of a small HTTP API that manages trip registrations.
The API lists trips with their countries, lists a client's registered trips,
creates clients, and registers or unregisters a client on a trip.

Two parts are modelled.

- **The data-access service** (`DbService.cs`) becomes the class `DbService.Database`.
  Its fields are the tables of the relational store:
  - `clients`: Client rows by id;
  - `trips`: Trip rows, in table order, each with a `maxPeople` capacity;
  - `countries` and `countryTrip`: the Country table and the Country_Trip join;
  - `clientTrip`: the Client_Trip join, a map keyed by (client id, trip id) holding
    `registeredAt` and an optional `paymentDate`.

  The five public operations and three private helpers are methods of the class.
  Each operation checks its guards in the source's order and stops at the first that
  fails: the client exists, then the trip exists, then the trip is not full. It then
  makes exactly one change, or it returns a typed failure and leaves the store as it was.
  The failures are `NotFound` (tagged with what is missing), `MaxMembersReached`, and
  `DuplicateKey`. `DuplicateKey` stands for the store's primary key on Client_Trip
  rejecting a second row for the same pair. Because Client_Trip is a map, at most one
  row per (client, trip) pair can ever exist. The read-side queries have pure
  specifications in module `Tables`, and the lemmas there say what those queries return.
  `Schema` states the store's integrity constraints (`Database.Valid()`):
  - trip ids are unique;
  - registrations refer to existing clients and trips;
  - Country_Trip refers to existing countries and trips;
  - client ids lie below the identity seed.

  `WithinCapacity()` says that no trip has more registrations than its `maxPeople`.
  Register and unregister both preserve it.
- **The client-input validators** (`ClientAddDTO.cs`) become pure predicates in module
  `ClientValidation`. Each regular expression is read as a match of the whole string.
  An empty string is a separate case, listed under "Left out".
  The Email pattern is given twice:
  - `MatchesEmailPattern`: some split of the string into local part, '@', domain, '.'
    and TLD;
  - `ValidEmail`: a matcher that takes the first '@' and the first '.' after it.

  `ValidEmailIffPattern` proves the two agree on every string.

Three details of the code the model keeps:

- The email domain class is `[0-9a-z]`: lower-case letters and digits only
  (ClientAddDTO.cs:11).
- The capacity test is `==`, not `>=` (DbService.cs:133). While `WithinCapacity()`
  holds, the two tests agree.
- Unregistering fails with NotFound when the DELETE affects no rows (DbService.cs:164).

## Model

| member | source | states |
|---|---|---|
| `ClientValidation.ValidName` | WebApplication1/Models/DTOs/ClientAddDTO.cs:7-10 | a first or last name is accepted iff it has 1 to 32 characters |
| `ClientValidation.ValidEmail` | WebApplication1/Models/DTOs/ClientAddDTO.cs:11 | the Email pattern as a matcher over the whole string; `ValidEmailIffPattern` relates it to the pattern |
| `ClientValidation.ValidTelephone` | WebApplication1/Models/DTOs/ClientAddDTO.cs:13 | a telephone is accepted iff it is '+' followed by 7 to 15 ASCII digits and nothing else |
| `ClientValidation.ValidPesel` | WebApplication1/Models/DTOs/ClientAddDTO.cs:15 | a PESEL is accepted iff it is exactly 11 ASCII digits |
| `ClientValidation.ValidInput` | WebApplication1/Models/DTOs/ClientAddDTO.cs:7-16 | a request is accepted iff all five field checks hold |
| `ClientValidation.ValidEmailIffPattern` | WebApplication1/Models/DTOs/ClientAddDTO.cs:11 | the matcher accepts exactly the strings that split into 1–16 letters/digits, '@', 2–16 lower-case letters/digits, '.', 2–8 lower-case letters |
| `ClientValidation.EmailCharAt` | WebApplication1/Models/DTOs/ClientAddDTO.cs:11 | in a matched email each character before '@', between '@' and '.', and after '.' lies in that part's character class |
| `ClientValidation.EmailShape` | WebApplication1/Models/DTOs/ClientAddDTO.cs:11 | a matched email has exactly one '@' and one '.', the '.' after the '@', no upper-case letter after '@', no line break, and length 7 to 43 |
| `ClientValidation.UpperCaseAfterAtRejected` | WebApplication1/Models/DTOs/ClientAddDTO.cs:11 | any string with an upper-case letter after an '@' is rejected as an email |
| `ClientValidation.TelephoneShape` | WebApplication1/Models/DTOs/ClientAddDTO.cs:13 | a valid telephone has length 8 to 16 and only ASCII digits after its leading '+' |
| `ClientValidation.ValidInputShape` | WebApplication1/Models/DTOs/ClientAddDTO.cs:7-16 | a request passing all five checks has names of 1–32 characters, an email of 7–43, a telephone of 8–16, a PESEL of exactly 11, and no line break in the pattern-checked fields |
| `ClientValidation.IndexFrom` | WebApplication1/Models/DTOs/ClientAddDTO.cs:11 | the first position of a character at or after a start, or the length when there is none |
| `Tables.CountryNamesExact` | WebApplication1/Services/DbService.cs:174-175 | a name is in a trip's country list iff some Country row linked to the trip in Country_Trip has that name |
| `Tables.CountryNamesComplete` | WebApplication1/Services/DbService.cs:168-189 | when Country_Trip refers to existing countries, every country linked to a trip is named in its list |
| `Tables.TripListAt` | WebApplication1/Services/DbService.cs:30-47 | the trip list has one element per Trip row, in order, carrying that row's fields and its countries |
| `Tables.IndexOfTrip` | WebApplication1/Services/DbService.cs:130 | the search returns the first position whose trip has the id, or nothing iff no trip has it |
| `Tables.FirstTripIndex` | WebApplication1/Services/DbService.cs:133 | the position of the first Trip row with the id: that row has it and no earlier row does |
| `Tables.MaxPeopleOf` | WebApplication1/Services/DbService.cs:133 | the capacity of the first trip whose id matches, as `First(t => t.Id == tripId).MaxPeople` reads it |
| `Tables.MaxPeopleOfMember` | WebApplication1/Services/DbService.cs:133 | with unique trip ids, the capacity looked up by id is that trip's own `MaxPeople` |
| `Tables.TripListIds` | WebApplication1/Services/DbService.cs:130-131 | an id is found in the trip list iff it is the id of a Trip row, at that row's position |
| `Tables.CountAfterInsert` | WebApplication1/Services/DbService.cs:204-214 | inserting a new Client_Trip row raises its trip's member count by one and leaves every other trip's count alone |
| `Tables.CountAfterRemove` | WebApplication1/Services/DbService.cs:204-214 | deleting a Client_Trip row lowers its trip's member count by one and leaves every other trip's count alone |
| `Tables.RegisteredTripsExact` | WebApplication1/Services/DbService.cs:61-90 | an element is in a client's trip list iff it is a trip that client is registered on, with that registration's `RegisteredAt` and `PaymentDate` |
| `Tables.RegisteredTripsCount` | WebApplication1/Services/DbService.cs:61-90 | a client's trip list has exactly one element per registration of the client on an existing trip |
| `Tables.RegisteredTripsEmpty` | WebApplication1/Services/DbService.cs:92-93 | under referential integrity, a client's trip list is empty iff the client has no registration |
| `Tables.DateRoundTrip` | WebApplication1/Services/DbService.cs:143 | `RegisteredAt` = yyyyMMdd keeps year, month and day recoverable by division and remainder |
| `Tables.DateOrder` | WebApplication1/Services/DbService.cs:143 | comparing encoded dates as integers orders them chronologically |
| `DbService.Database.GetCountriesByTripId` | WebApplication1/Services/DbService.cs:168-189 | the loop returns the names of the countries linked to the trip, in Country table order |
| `DbService.Database.GetTrips` | WebApplication1/Services/DbService.cs:24-50 | the loop returns every trip in table order, each with its countries |
| `DbService.Database.DoesClientExist` | WebApplication1/Services/DbService.cs:191-202 | true iff the client id is in the Client table |
| `DbService.Database.GetCurrentNumberOfTripMembers` | WebApplication1/Services/DbService.cs:204-214 | the number of Client_Trip rows of the trip |
| `DbService.Database.GetTripsByClientId` | WebApplication1/Services/DbService.cs:52-96 | NotFound(client) for a missing client, checked first; NotFound for a client with no registrations; otherwise its registered trips, and success iff the client exists and has a registration |
| `DbService.Database.AddClient` | WebApplication1/Services/DbService.cs:98-123 | returns a client with the input's fields and an id not used before; adds exactly that client and changes no other table |
| `DbService.Database.AddTripToClient` | WebApplication1/Services/DbService.cs:125-145 | NotFound for a missing client, then NotFound for a missing trip; MaxMembersReached when the count equals `MaxPeople`; DuplicateKey for an existing pair; otherwise inserts exactly (client, trip) with `RegisteredAt` = yyyyMMdd and no payment date. Every failure leaves Client_Trip unchanged, and the schema and capacity invariants are kept |
| `DbService.Database.RemoveTripFromClient` | WebApplication1/Services/DbService.cs:147-166 | NotFound for a missing client, then for a missing trip, then when no row was deleted; on success removes exactly the (client, trip) row. Failures leave Client_Trip unchanged, and the invariants are kept |
| `DbService.CapacityScenario` | WebApplication1/Services/DbService.cs:125-166 | on a trip with room for one, the first client registers, a second gets MaxMembersReached, unregistering succeeds, and unregistering again gets NotFound |
| `DbService.RegisterThenUnregister` | WebApplication1/Services/DbService.cs:136-165 | a successful registration followed by an unregistration restores Client_Trip, and a second unregistration fails with NotFound |
| `DbService.NewClientScenario` | WebApplication1/Services/DbService.cs:98-123 | a newly added client has an id no earlier client had and is found by the existence check afterwards |

## Left out

- SQL text, connections, commands, readers and `async`/`await` are not modelled. Each
  operation acts directly on the in-memory tables.
- Concurrency is not modelled. Each operation is atomic on one sequential store, so the
  check-then-act race is absent: two concurrent registrations can both pass the capacity
  check and together exceed `MaxPeople`.
- The clock (`DateTime.Now`) is not read. Register takes the current year, month and day
  as parameters and requires a plausible calendar date.
- Trip `DateFrom`/`DateTo` values are opaque `DateTime` values that are only copied.
- Identity generation (`SCOPE_IDENTITY()`) is modelled by an identity counter,
  `nextClientId`, that lies above every existing id.
- Exception messages are dropped. A `NotFound` failure carries only a tag naming what is
  missing.
- Other store errors are not modelled. Beyond the Client_Trip key violation, errors such
  as connectivity failures or other constraints do not occur in the model.
- All integers are unbounded. The 32-bit width of ids, counts, `MaxPeople` and
  `RegisteredAt` is not modelled.
- Result order is fixed where the queries leave it unspecified. None of the three
  queries has an `ORDER BY`: the Trip query (DbService.cs:30), the Country subquery
  (DbService.cs:174-175) and the client-trips join (DbService.cs:61-64). The model
  returns trips in Trip table order and countries in Country table order.
- The controllers are not part of this model. They map NotFound to 404 and success to
  200/201/204. They map every `SqlException` on registration to 400 "Client is already
  registered on the trip": a duplicate key, a connectivity failure or any other store
  error alike. They do not catch MaxMembersReached.
- Client, CountryGetDTO and RegisteredTripGetDTO are represented only by the fields the
  service fills.
- ClientValidation: `\d` is modelled as ASCII `0`–`9`, although .NET also accepts other
  Unicode decimal digits.
- ClientValidation: lengths count Dafny characters rather than UTF-16 code units. The
  missing/null-field behaviour of data annotations is not modelled.
- ClientValidation.ValidEmail, ValidTelephone, ValidPesel: the regular-expression
  attribute accepts an empty string (and null) without running the pattern, so `""`
  passes it; these predicates reject `""`. Whether `""` reaches the service then depends
  on an implicit `[Required]` on non-nullable properties, which is not modelled.
- Payment dates are not modelled as changing: no operation of the service sets them.
