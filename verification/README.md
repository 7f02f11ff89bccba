# URL shortener record store, modelled in Dafny

The service keeps all of its state in one ordered sequence of records
`{id, link, addedAt}`. Four HTTP routes and a periodic expiry sweep read that
sequence, transform it, and sometimes write it back whole. This project
models each of them as a pure function on a `seq<Record>`. Each function
returns the new store, the answer sent to the client and a flag saying
whether the store was written.

- `Filtering` (filtering.dfy) models the `Array.prototype.filter` behaviour
  used by the sweep and by delete. It also gives an independent description
  of a filter's result: the unique subsequence of the input made of the
  selected elements, with as many elements as the input has selected ones.
  It proves that `Filter` matches that description.
- `Records` (records.dfy) holds the record type, the store, and the
  first-match search that `find` performs.
- `Expiry` (expiry.dfy) holds `cleanExpiredURLs`. It uses the 3-hour window
  in integer milliseconds: `now - addedAt < 3 * 3600 * 1000`. An `addedAt` of
  `None` stands for a timestamp that does not parse. Its age is then NaN, the
  `<` test fails and the record is dropped.
- `Routes` (routes.dfy) holds the handlers for `GET /urls`, `POST /urls`,
  `GET /:id` and `DELETE /urls/:id`, and their status codes
  (200/201/400/302/404/204).
- `Service` (service.dfy) joins the routes and the sweep into one step
  function. It proves two lifecycle facts: the store is written exactly when
  it changes, and no existing record is ever edited.

Parameters stand in for everything the handlers get from outside:

- the clock (`now`, in milliseconds);
- the random id from `nanoid(8)` (`id`);
- the request body's `link` field (`Option<string>`, `None` when absent);
- the verdict of the WHATWG URL parser (`validUrl: string -> bool`).

Choices the code makes that the model keeps:

- The handlers never check that a new id is unused, so the model allows
  duplicate ids. Properties that need distinct ids take `UniqueIds` as a
  hypothesis.
- A record whose timestamp does not parse is dropped by the sweep, through
  the failed NaN comparison.
- Delete removes every record with the id.
- `!link` also rejects the empty string, which is answered as a missing link.

## Model

| member | source | states |
|---|---|---|
| Filtering.Filter | server.js:20-24 | `filter` keeps exactly the elements that pass the callback, and never adds any |
| Filtering.FilterUnique | server.js:111 | a subsequence of the input made only of passing elements, as long as the number of passing elements, equals the filter result, so the result keeps the original order |
| Records.FirstIndexOf | server.js:96 | the search finds the first record with the id, no earlier record has that id, and it finds none exactly when no record has the id |
| Expiry.Alive | server.js:21-23 | an unparseable timestamp is never alive; otherwise a record is alive iff `now - addedAt < 10800000` (3 hours in milliseconds), so a record exactly 3 hours old is not alive and one with a future timestamp is |
| Expiry.Sweep | server.js:16-30 | survivors are exactly the records under 3 hours old (unparseable timestamps never survive), kept as an order-preserving subsequence with as many records as are alive; the store is written iff the result is shorter, iff some record had expired, and is unchanged otherwise |
| Expiry.SweepCharacterised | server.js:20-24 | any order-preserving selection of all alive records is what the sweep keeps |
| Expiry.SweepIdempotent | server.js:18-29 | a second sweep at the same instant keeps everything and does not write |
| Expiry.SweepsCompose | server.js:20-24 | a sweep followed by a later one leaves the same records as the later sweep alone |
| Expiry.SweepAppend | server.js:20-24 | sweeping a concatenation sweeps each part and concatenates, so nothing is reordered |
| Routes.StatusCode | server.js:63-118 | Listed 200, Created 201, MissingLink and InvalidUrl 400, Redirect 302 (the `res.redirect` default), NotFound 404, Deleted 204: a 2xx status exactly for the three successes, 400 exactly for the two create refusals |
| Routes.ListUrls | server.js:61-64 | answers with the stored sequence in store order, with no change and no write |
| Routes.CreateUrl | server.js:67-89 | an absent or empty link gives MissingLink (400) and a link the URL parser rejects gives InvalidUrl (400), both with the store untouched and no write; otherwise exactly one record `{id, link, now}` is appended at the end, earlier records are unchanged and the store is written (201) |
| Routes.Resolve | server.js:92-103 | redirects to the link of the first record with the id; NotFound (404) iff no record has it; the store is never modified |
| Routes.DeleteUrl | server.js:106-119 | keeps exactly the records whose id differs, as an order-preserving subsequence, removing all duplicates; NotFound iff no record had the id, with the store unchanged and no write; otherwise the store is written (204) |
| Routes.DeleteCharacterised | server.js:111 | any order-preserving selection of all records with a different id is what delete keeps |
| Routes.DeleteThenResolve | server.js:92-119 | after deleting an id, resolving it answers NotFound, even when the id was duplicated |
| Routes.DeleteTwice | server.js:106-119 | a second delete of the same id answers NotFound and writes nothing |
| Routes.FirstIndexAppend | server.js:85-96 | appending a record does not move the first match of an id that was already present, and makes a fresh id's first match the new last position |
| Routes.CreateThenResolve | server.js:67-103 | after a successful create with a fresh id, the id resolves to the new link; with an id already taken, the earlier record shadows the new one |
| Routes.DeleteUniqueRemovesOne | server.js:110-113 | with distinct ids, deleting a present id removes exactly one record |
| Service.Step | server.js:16-119 | over every route and the sweep: the store is written iff it changed; every record afterwards was there before or is the one a create appended; the store grows by at most one; only a sweep tick has no reply |
| Service.FilterKeepsUniqueIds | server.js:20-24 | filtering a store with distinct ids leaves distinct ids |
| Service.StepKeepsUniqueIds | server.js:16-119 | ids stay distinct across every step, provided a create draws an id not already present |
| Service.SweptRecordUnresolvable | server.js:20-100 | with distinct ids, an expired record's id answers NotFound after a sweep |
| Service.SweptDuplicateStillResolves | server.js:20-100 | without distinct ids, an expired record's id can still resolve after a sweep, to a live duplicate |

## Left out

- Express routing, JSON body parsing, `res.json`/`res.redirect` plumbing and `GET /` (server.js:6-7, 48-58, 121-124) are framework I/O. Handlers answer with an `Outcome` and `StatusCode` maps it to the HTTP status.
- lowdb's `read`/`write` of `db.json` and the `initializeApp` bootstrap (server.js:10-11, 33-36) are file I/O through a library. Persistence is a `wrote` flag. A failed write is not modelled.
- The sweep in the code filters the in-memory copy without re-reading the file, while the handlers re-read first. The model has a single store. The two copies can only differ through the concurrency that is left out.
- `setInterval` and the startup sweep call (server.js:39-40) are scheduling. A sweep is an event that the caller supplies. Read-modify-write races between concurrent handlers are not modelled.
- `nanoid(8)` (server.js:79) is randomness. The id is a parameter, and its length and alphabet are not modelled.
- `new URL(link)` (server.js:73), the WHATWG URL parser, is a foreign call. Its verdict is the parameter `validUrl`.
- The floating-point hour division and ISO-8601 `Date` parsing and formatting (server.js:21-22, 81) are replaced by integer milliseconds and `Option<int>`. For integer millisecond ages, `age / 3600000 < 3` holds exactly when `age < 10800000`.
- Routes.CreateUrl: the body's `link` is modelled as an optional string. Non-string JSON values (numbers, booleans, objects) are not modelled, and neither is their JavaScript truthiness or string conversion.
- `console.log` output.
- Express matches `GET /urls` (server.js:61) and `GET /` (server.js:48) before `GET /:id` (server.js:92), so the real resolve handler never sees the id `urls` or the empty id. `Service.Step` sends every `ResolveRequest` to `Routes.Resolve`, route precedence included. `nanoid(8)` never produces those ids, so no record created by the service is affected.
