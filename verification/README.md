# IoT temperature monitor: ingestion and day query, modelled in Dafny

The server of this system stores temperature readings sent by ESP32 sensors in a MongoDB
collection and lists them back by day. Its decision logic is two Express route handlers in
`server.js`, working on the `Temperature` Mongoose model:

- `POST /api/temperature` takes `deviceId` and `temperature` from the JSON body. A falsy
  `deviceId` or an `undefined` `temperature` is answered 400 `{ error: "Datos incompletos" }`.
  Otherwise one document is built from exactly those two fields and saved. The schema's
  `timestamps: true` stamps it with `createdAt`/`updatedAt`, and the reply is
  `{ message: "Lectura guardada" }`. Any exception is answered 500.
- `GET /api/temperature/day` takes an optional `date` query parameter. When it is truthy, the
  handler builds `new Date(date + "T00:00:00.000Z")` and `new Date(date + "T23:59:59.999Z")` and
  filters on `createdAt` between them, both ends included. Without it, nothing is filtered. The
  matching readings come back ascending by `createdAt`. Any exception is answered 500.

The model has five modules:

- `Wrappers` (`wrappers.dfy`): `Option`.
- `JsonValue` (`json.dfy`): the values of a parsed JSON body, with `undefined` for an absent
  property, and JavaScript truthiness.
- `Calendar` (`calendar.dfy`): what `new Date(text)` makes of the strings the day query builds.
  It follows the ECMAScript date-time string format: a date form `YYYY`, `YYYY-MM` or
  `YYYY-MM-DD`, then `THH:mm:ss.sssZ`. It also follows ECMA-262's MakeDay in the proleptic
  Gregorian calendar, giving milliseconds since the epoch, and `None` for an Invalid Date.
- `Store` (`store.dfy`): the `Temperature` documents and the class `TemperatureCollection`,
  which holds the collection as a sequence of readings. Its `Save` validates, stamps and
  appends. Its `Find` is `find(filter).sort({ createdAt: 1 })`, specified by the functions
  `Select`, `SortByCreatedAt` and `Query`.
- `Server` (`server.dfy`): the two handlers as methods that take the collection. Each is proved equal
  to a function of the stored readings (`PostOutcome`, `DayReply`). The lemmas state what the
  handlers promise.

Everything outside the process is a parameter. `now` is the clock reading the save stamps.
`saveFails` and `queryFails` stand for a save or a find that rejects: the database, or a cast
Mongoose cannot make.

### Behaviour worth noting

- There is no credential check: any client may POST.
- A falsy `deviceId` (absent, `null`, `""`, `0`, `false`) is answered 400.
- A GET without `date`, or with an empty one, returns every stored reading.
- A malformed `date` yields an Invalid Date. Mongoose's cast of the filter then throws, so the
  reply is 500.
- A non-numeric `temperature` such as `"hot"` passes the handler's own check. It fails only
  in Mongoose's cast, which the model does not represent (see `saveFails`).
- `temperature: null`, and `temperature: ""` (which Mongoose's Number cast turns into `null`),
  pass the handler's check but fail the schema's `required` validator, so the reply is 500.

## Model

| member | source | states |
|---|---|---|
| `Store.TemperatureCollection.Save` | server.js:38-54 | a save succeeds exactly when the required validators pass and the database accepts it; it then appends one reading stamped with `createdAt == updatedAt == now`, otherwise the collection is unchanged; every stored reading stays well formed |
| `Store.TemperatureCollection.Find` | server.js:100-102 | the find fails exactly when the database fails or a bound is an Invalid Date; otherwise it returns every stored reading the filter matches, as often as it is stored, none other, ascending by `createdAt` |
| `Store.Select` | server.js:97 | the selection holds each reading that matches `$gte`/`$lte` as often as the collection does, and no reading that does not match |
| `Store.SortByCreatedAt` | server.js:102 | the result is ascending by `createdAt` and a permutation of its input |
| `Store.Query` | server.js:100-102 | filter then sort: ascending, and exactly the matching readings with their multiplicities |
| `Store.FindResult` | server.js:100-107 | a find yields readings exactly when the database does not fail and both bounds are valid dates |
| `JsonValue.Truthy` | server.js:70 | the falsy values of `!deviceId` are exactly `undefined`, `null`, `false`, `0` and `""`; every other value is truthy |
| `Store.Present` | server.js:40-47 | what `required: true` rejects on each path: `null`, `undefined` and `""` (on the Number path after the cast of `""` to `null`); `PostRejectsIncomplete`, `PostAppendsOne` and `PostBlankTemperature` state its effect on a POST |
| `Store.MeetsRequired` | server.js:38-48 | a document passes validation when both paths are present; `Save` succeeds exactly then (and the database accepts), and `PostKeepsWellFormed` states that every stored reading passed it |
| `Store.Stamp` | server.js:50 | the stamped reading is well formed exactly when the document passed the required validators; `PostAppendsOne` states its `createdAt` is the store's clock |
| `Server.Incomplete` | server.js:70 | the handler's own check; `PostRejectsIncomplete` states it is answered 400 exactly when it holds |
| `Server.PostOutcome` | server.js:66-85 | the POST handler as a function of the stored readings; `PostRejectsIncomplete`, `PostAppendsOne`, `PostFailureStoresNothing`, `PostBlankTemperature`, `PostReadsOnlyTwoFields` and `PostKeepsWellFormed` state what it promises |
| `Server.DayFilter` | server.js:92-98 | no filter without a date; otherwise both bounds are valid or both are Invalid Dates, and a valid window starts at a UTC midnight and ends 86 399 999 ms later |
| `Server.DayBounds` | server.js:95-96 | the two bounds are the first and the last millisecond of the day the date names, or both Invalid Dates when the date part is rejected |
| `Calendar.TimeValue` | server.js:95-96 | `new Date(text)` yields a time only when the date part is accepted, and that time lies within the day the date part names (the end of the day included, for `T24:00`) |
| `Server.PostTemperature` | server.js:66-85 | the handler's reply and the collection afterwards are those of `PostOutcome` on the collection before; the collection stays well formed |
| `Server.PostRejectsIncomplete` | server.js:70-72 | the reply is 400 exactly when `deviceId` is falsy or `temperature` is `undefined`; it then carries "Datos incompletos" and nothing is stored |
| `Server.PostAppendsOne` | server.js:74-81 | the reply is 200 exactly when the check and the save pass; the collection then grows by one reading whose `deviceId` and `temperature` are the submitted ones and whose `createdAt` is the store's clock, every earlier reading unchanged |
| `Server.PostFailureStoresNothing` | server.js:82-84 | every reply is 200, 400 or 500; a 500 stores nothing, and a failing save never stores anything |
| `Server.PostBlankTemperature` | server.js:44-47 | `temperature: null` or `""` with a truthy `deviceId` gets 500 from the required validator and stores nothing |
| `Server.PostReadsOnlyTwoFields` | server.js:68 | two bodies that agree on `deviceId` and `temperature` have the same outcome |
| `Server.PostIgnoresClientTimestamp` | server.js:68 | a `createdAt` sent in the body changes nothing: the timestamp is the store's |
| `Server.PostKeepsWellFormed` | server.js:38-52 | after any POST every stored reading still passed the required validators and has `updatedAt == createdAt` |
| `Server.DayReply` | server.js:100-107 | the GET answers 200 or 500; 200 exactly when the database does not fail and the filter has no Invalid Date |
| `Server.GetTemperatureDay` | server.js:88-108 | the handler's reply is `DayReply` of the stored readings; it modifies nothing, so two GETs on the same store answer the same up to the order among readings with equal `createdAt`, which the model fixes in stored order |
| `Server.StartOfDayTime` | server.js:95 | the time part `T00:00:00.000Z` is millisecond 0 of the day |
| `Server.EndOfDayTime` | server.js:96 | the time part `T23:59:59.999Z` is millisecond 86 399 999 of the day |
| `Server.DayWindowOfDate` | server.js:95-96 | for a date the parser accepts, the window is [day × 86 400 000, day × 86 400 000 + 86 399 999] in epoch milliseconds |
| `Server.DayWindowOfMalformedDate` | server.js:95-96 | for a non-empty date the parser rejects, both bounds are Invalid Dates |
| `Server.InstantInDayWindow` | server.js:95-97 | an instant is in a date's window exactly when it falls on that UTC day |
| `Server.ConsecutiveDayWindows` | server.js:95-96 | the window of a date ends one millisecond before the window of the next calendar date starts |
| `Server.DayWindowsDisjoint` | server.js:95-97 | the windows of two different calendar dates share no instant |
| `Server.DayReplyForDate` | server.js:94-104 | with a valid date the GET answers 200 with exactly the readings whose `createdAt` is in the window, each as often as stored, ascending |
| `Server.DayReplyWithoutDate` | server.js:92-94 | with `date` absent or empty the GET answers 200 with every stored reading, ascending |
| `Server.DayReplyMalformedDate` | server.js:95-107 | with a non-empty date the parser rejects, the GET answers 500 |
| `Server.PostThenQueryDay` | server.js:66-108 | POSTing `{ deviceId: "esp32-1", temperature: 24.5 }` into an empty collection, then GETting that day, lists exactly that reading |
| `Server.EpochDayWindow` | server.js:95-96 | `?date=1970-01-01` selects milliseconds 0 to 86 399 999 |
| `Server.WindowOfFormattedDate` | server.js:95-96 | the window of a date written `YYYY-MM-DD` starts at its MakeDay times 86 400 000 and spans 86 399 999 ms |
| `Calendar.ParseDateForm` | server.js:95-96 | an accepted date form has a four-digit year, month 01..12 and day 01..31, and is 4, 7 or 10 characters long |
| `Calendar.ParseTimeOfDay` | server.js:95-96 | an accepted time part is between 0 and 86 400 000 ms into the day |
| `Calendar.ParseYearForm` | server.js:95-96 | `YYYY` is read as 1 January of that year, so `?date=2025` selects the window of 2025-01-01 |
| `Calendar.ParseYearMonthForm` | server.js:95-96 | `YYYY-MM` is read as the first of that month, so `?date=2025-03` selects the window of 2025-03-01 |
| `Calendar.ParseFormattedDate` | server.js:95-96 | writing a date `YYYY-MM-DD` and parsing it gives back the same fields |
| `Calendar.FormatParsedDate` | server.js:95-96 | a 10-character date the parser accepts is exactly the written form of what it read |
| `Calendar.NextDateIsNextDay` | server.js:95-96 | MakeDay of the next calendar date is one more |
| `Calendar.MakeDayIncreasing` | server.js:95-96 | MakeDay is strictly increasing in calendar order |
| `Calendar.MakeDayInjective` | server.js:95-96 | two calendar dates with the same day number are the same date |
| `Calendar.MakeDayRollsOver` | server.js:95-96 | a day past the month's end is the same day number as its roll-over into the next month, so `?date=2025-02-30` selects the window of 2025-03-02 |
| `Calendar.DayOfYearInRange` | server.js:95-96 | a calendar date is one of the 365 or 366 days of its year |
| `Calendar.EpochIsDayZero` | server.js:95-96 | 1970-01-01 is day 0 |
| `Calendar.InstantOfDay` | server.js:97 | an instant is within the milliseconds of day n exactly when its floored day count is n |
| `Calendar.PaddedOfDecimalValue` | server.js:95-96 | a run of digits is the zero-padded writing of its value |

## Left out

- Express setup, the CORS middleware, JSON body parsing, the `/api/test` ping and `app.listen`
  (server.js:12-24, 61-63, 113-117) are transport plumbing.
- `dotenv` and `mongoose.connect` (server.js:7, 29-33) are configuration and I/O. A database
  that cannot be reached is one cause of `saveFails` / `queryFails`.
- Mongoose's type casting is library behaviour. A stored reading keeps the submitted JSON
  values. Mongoose would store a numeric `deviceId` as its string and a numeric string
  `temperature` as a number, and it rejects uncastable values such as `"hot"` or an object.
  A cast failure is one of the causes of `saveFails`. The `required` validators of the schema
  are modelled, including the one cast that changes what they see: `""` on the Number path.
- JSON numbers too large for a double (`1e400`) parse to `Infinity`, which `JsonValue.Json`
  does not represent. The POST check would find `Infinity` truthy, and Mongoose's Number cast
  accepts it.
- The text of `err.message` in 500 replies comes from the failing library; only the status is
  modelled.
- Concurrent requests are not modelled: each request is one atomic step on the collection.
- The `_id` and `__v` fields Mongoose adds to every document, and the JSON serialisation of
  the reply, are not modelled.
- The body is modelled as a parsed JSON object. A request whose Content-Type is not JSON is
  skipped by `express.json()`; under Express 4 its body is then `{}`, which the model covers as
  the empty map (answered 400). Under Express 5 the body would be `undefined` and the
  destructuring at server.js:68 would throw, a 500 the model does not represent. A JSON array
  body reaches the handler and reads like an object without the two properties (400). Malformed
  JSON and top-level primitives are answered by the body parser before the handler runs, and are
  not modelled.
- A `date` query parameter given several times, or with brackets, reaches the handler as an
  array or object. The model's `date` is an optional string.
- `Calendar.TimeValue` follows the ECMAScript date-time string format with four-digit years.
  Expanded years (`+002025`) are not modelled. Neither is the engine's fallback parsing of
  strings outside that format; such strings are modelled as Invalid Dates. Time clipping
  does not matter for years 0000 to 9999.
- Store.SortByCreatedAt: MongoDB does not promise an order among readings with equal
  `createdAt`, not even between two identical queries. The model keeps them in stored order,
  which is a modelling choice. The contracts of `Store.SortByCreatedAt` and `Store.Query` state
  only what MongoDB promises: ascending order and the exact multiset. `Store.TemperatureCollection.Find`,
  `Server.DayReply` and `Server.GetTemperatureDay` are tied to those functions by equality, so
  through them the tie order is fixed in stored order, which MongoDB does not promise.
- The clock is the parameter `now`. Nothing is assumed about successive clock readings, so
  the collection is not kept in `createdAt` order; only the query sorts.
