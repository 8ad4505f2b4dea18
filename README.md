# Travel booking backend: a verified model of its business rules

This project models the server side of a travel booking site. The site has:

- users, who are customers or admins;
- destinations;
- tour packages at those destinations;
- bookings of packages;
- reviews of booked trips.

Each HTTP handler queries a MySQL database. The rules that decide what a
handler answers and what it writes are in the JavaScript and in the SQL text:
which check comes first, which error ends the request, which columns an
UPDATE touches, what a WHERE clause keeps and how ORDER BY sorts. Those rules
are modelled here over an in-memory database.

- `store.dfy` (module `Store`): the five tables (`users`, `destinations`,
  `packages`, `bookings`, `reviews`).
  - Each table is a map from its auto-increment id to a record, with a next-id
    counter per table and an abstract creation clock used for "newest
    first".
  - `Tables` is a snapshot of the whole database as a value.
  - `Database` is the class whose fields the state-changing handlers update
    in place.
  - `Outcome` is what a handler answers: `Ok`, `NotFound` (404),
    `Forbidden` (403) or `BadRequest` (400).
- `query.dfy` (module `Query`): the SQL the handlers rely on.
  - a table scan with a WHERE predicate (`Select`, and `SelectSorted` with an ORDER BY);
  - `ORDER BY`, as a sorted permutation under a lexicographic key (`SortBy`);
  - the SELECT column list (`Project`);
  - `LIKE '%q%'`, as substring containment (`Contains`).
- `bookings.dfy`, `packages.dfy`, `users.dfy` and `destinations.dfy`: one module
  per handler file.
  - Each state-changing handler `X` is a method on the `Database`, with
    `modifies db`.
  - Its contract says the answer and the new state are exactly what a pure
    function `XEffect` computes from the old state.
  - The properties are proved about `XEffect`: the error conditions, that the
    tables are unchanged on every error, and which rows and columns change on
    success.
  - Read-only handlers are functions over a `Tables` snapshot.

The caller `{id, role}` that the authentication middleware attaches is an
input. Routes that the middleware restricts to admins have `IsAdmin(actor)`
as a precondition: `backend/routes/bookingRoutes.js` lines 15 and 23,
`backend/routes/packageRoutes.js` lines 14, 18 and 19,
`backend/routes/userRoutes.js` line 7 and `backend/routes/destinationRoutes.js`
line 70.

Consequences of the handlers' code that the model keeps:

- Several reads use inner JOINs: `getMyBookings`, `getAllBookings`,
  `getBooking`, and the review list of `getPackage`. An inner JOIN silently
  drops a row whose joined row is missing. So the model's listings keep only
  bookings whose package (and destination, and user) rows exist. Under
  referential integrity (`Tables.ReferencesIntact`) nothing is dropped:
  `Bookings.MyBookingsExact` and `Bookings.AllBookingsUnfiltered` show it for
  the two booking listings, `Bookings.GetBookingIntact` for `getBooking`, and
  `Packages.GetPackageReviewsIntact` for the review list of `getPackage`.
- `getBooking` answers 404, not 403, for a booking whose joined rows are
  missing.
- `getPackages` tests `if (minPrice)` on the raw query string. The string
  `"0"` is truthy in JavaScript, so a given `minPrice=0` does filter, while an
  empty value does not.
- `available` is tested with `!== undefined`, so `available=` (empty)
  selects the unavailable packages.

## Model

| member | source | states |
|---|---|---|
| Query.Select | backend/controllers/packageController.js:9-17 | `SELECT ... FROM t WHERE p` yields exactly the rows satisfying `p`, each once (its length is the number of matching keys) |
| Query.SortBy | backend/controllers/packageController.js:40 | `ORDER BY` returns a permutation of its input that is sorted by the key |
| Query.SelectSorted | backend/controllers/bookingController.js:74-84 | `SELECT ... WHERE p ORDER BY key` yields exactly the matching rows, one per matching key, sorted by the key |
| Query.NewestFirst | backend/controllers/bookingController.js:82 | rows sorted by the `created_at DESC` key come with non-increasing creation times |
| Query.LexLeqTotal | backend/routes/destinationRoutes.js:15 | the composite ORDER BY key order is total: any two keys compare one way or the other |
| Query.LexLeqTransitive | backend/routes/destinationRoutes.js:15 | the composite ORDER BY key order is transitive |
| Query.ContainsIffOccurs | backend/controllers/packageController.js:20-23 | `LIKE '%q%'` is true exactly when `q` is a contiguous slice of the name at some position |
| Bookings.CreateBookingEffect | backend/controllers/bookingController.js:6-43 | NotFound exactly when the package is absent or unavailable; BadRequest exactly when it is bookable and `num_people > max_people` (so `== max_people` is accepted); both errors leave every table unchanged; on success exactly one booking is added under a fresh id, for the caller, with the request's package, date, party size and requests, `total_amount = price * num_people`, status pending and payment pending, and no other table or existing booking changes |
| Bookings.CreateBooking | backend/controllers/bookingController.js:6-43 | the in-place insert answers and leaves the database exactly as `CreateBookingEffect` says, and keeps the database invariant |
| Bookings.MyBookings | backend/controllers/bookingController.js:72-84 | the list holds exactly the caller's bookings that survive the package and destination JOINs, as many as there are such rows, newest first |
| Bookings.MyBookingsExact | backend/controllers/bookingController.js:81 | under referential integrity a booking is listed iff it is stored and belongs to the caller |
| Bookings.AllBookings | backend/controllers/bookingController.js:103-129 | admin only; every listed booking is stored and survives the JOINs; a given status or payment filter holds for every result, and an absent one imposes nothing; every matching stored booking is listed, as many as there are matching rows that survive the JOINs, newest first |
| Bookings.AllBookingsUnfiltered | backend/controllers/bookingController.js:119-129 | without filters and under referential integrity, every stored booking is listed |
| Bookings.GetBookingIntact | backend/controllers/bookingController.js:152-171 | under referential integrity `getBooking` answers 404 exactly for an absent id: the JOINs drop no stored booking |
| Bookings.GetBooking | backend/controllers/bookingController.js:150-181 | NotFound exactly when the booking (with its joined rows) is absent, Forbidden exactly when it exists but the caller is neither admin nor owner, otherwise the stored row; it is a read and changes nothing |
| Bookings.UpdateStatusEffect | backend/controllers/bookingController.js:199-221 | admin only; NotFound and no change for an absent id; otherwise `status` and `payment_status` each take the supplied value or keep the old one, every other column and every other row is unchanged, and no transition is checked |
| Bookings.UpdateBookingStatus | backend/controllers/bookingController.js:199-221 | the in-place update agrees with `UpdateStatusEffect` and keeps the database invariant |
| Bookings.AnyStatusReachable | backend/controllers/bookingController.js:215-221 | an admin can set any status on any existing booking, leaving its payment status as it was |
| Bookings.CancelEffect | backend/controllers/bookingController.js:245-280 | checks in order NotFound, Forbidden (neither admin nor owner), BadRequest (already cancelled), each an iff and each leaving the tables unchanged; on success only that booking's status becomes cancelled, from any other status, and its payment status is kept |
| Bookings.CancelBooking | backend/controllers/bookingController.js:245-280 | the in-place cancel agrees with `CancelEffect` and keeps the database invariant |
| Bookings.CancelIsOneShot | backend/controllers/bookingController.js:269-275 | after a successful cancel, a second cancel of the same booking by anyone fails and changes nothing, and is BadRequest for an authorized caller |
| Bookings.AddReviewEffect | backend/controllers/bookingController.js:298-335 | NotFound exactly when the booking is absent or not the caller's (admins are not exempt); BadRequest exactly when it is the caller's and already reviewed; never Forbidden; errors leave the tables unchanged; on success one review is added under a fresh id for the caller, the booking's package and the booking, with that rating and comment, all other reviews and tables unchanged, and at most one review per booking still holds |
| Bookings.AddReview | backend/controllers/bookingController.js:298-335 | the in-place insert agrees with `AddReviewEffect` and keeps the database invariant |
| Bookings.SecondReviewRefused | backend/controllers/bookingController.js:318-329 | once a review of a booking is accepted, the next one for that booking is BadRequest and changes nothing |
| Bookings.Scenario | backend/controllers/bookingController.js:6-280 | booking 2 people on a 500-priced package for 4 costs 1000 and is pending; an admin confirms it; its owner cancels it; a second cancel is BadRequest |
| Packages.Summarize | backend/controllers/packageController.js:11-15 | `review_count` is the number of reviews carrying the package's id, and `avg_rating` is 0 when there are none |
| Packages.MatchingPackages | backend/controllers/packageController.js:9-40 | the rows selected are exactly the stored packages satisfying the assembled WHERE clause, as many as such rows, newest first |
| Packages.ListPackages | backend/controllers/packageController.js:6-47 | every result is a stored package satisfying the filter, with its review statistics; every such package is listed; the count is the number of matching rows; newest first |
| Packages.ListPackagesHonoursFilters | backend/controllers/packageController.js:20-38 | a given minPrice / maxPrice bounds every result's price; a given destination name is a substring of every result's destination name; `available=true` yields only available packages and any other given value only unavailable ones |
| Packages.ListPackagesUnfiltered | backend/controllers/packageController.js:16 | without parameters every package is listed |
| Packages.GetPackage | backend/controllers/packageController.js:61-90 | NotFound exactly for an absent id (never any other error); otherwise the package's statistics and exactly the reviews of that package whose author row exists, as many as there are such review rows, newest first |
| Packages.GetPackageReviewsIntact | backend/controllers/packageController.js:83-90 | under referential integrity every stored package is found, and its review list is exactly the stored reviews of that package, as many as there are |
| Packages.AuthorsIntact | backend/controllers/packageController.js:84-87 | under referential integrity the `JOIN users` keeps every review key of the package |
| Packages.CreatePackageEffect | backend/controllers/packageController.js:111-144 | admin only; always succeeds; inserts one package under a fresh id with the eleven supplied fields and `available` at its column default, and changes no other table |
| Packages.CreatePackage | backend/controllers/packageController.js:111-144 | the in-place insert agrees with `CreatePackageEffect` and keeps the database invariant |
| Packages.UpdatePackageEffect | backend/controllers/packageController.js:158-205 | admin only; NotFound and no change for an absent id; otherwise each of the twelve columns takes the supplied value or keeps the stored one, id and creation time are kept, and no other package or table changes |
| Packages.UpdatePackage | backend/controllers/packageController.js:158-205 | the in-place update agrees with `UpdatePackageEffect` and keeps the database invariant |
| Packages.RepricingKeepsTotals | backend/controllers/packageController.js:194 | changing a package's price leaves every booking's stored total as it was |
| Packages.DeletePackageEffect | backend/controllers/packageController.js:229-243 | admin only; NotFound and no change for an absent id; otherwise exactly that package is removed and all other rows and tables are unchanged |
| Packages.DeletePackage | backend/controllers/packageController.js:229-243 | the in-place delete agrees with `DeletePackageEffect` and keeps the database invariant |
| Users.UsersNewestFirst | backend/routes/userRoutes.js:9-11 | the scan of `users` yields every user row once, each under its own id, newest `created_at` first |
| Users.ListUsers | backend/routes/userRoutes.js:7-16 | admin only; exactly one password-free row per stored user, each equal to that user's projected columns, newest first |
| Users.UpdateProfileEffect | backend/routes/userRoutes.js:28-46 | always a success; when the caller's row exists, `full_name` and `phone` each take the supplied value (an empty string included) or keep the old one, every other column and every other row is unchanged, and the answer is the updated row without its password; when it does not exist, nothing changes and no data is returned |
| Users.UpdateProfile | backend/routes/userRoutes.js:28-46 | the in-place update agrees with `UpdateProfileEffect` and keeps the database invariant |
| Users.UpdateProfileIdempotent | backend/routes/userRoutes.js:32-35 | repeating the same profile update leaves the database as the first one did |
| Users.UpdateProfileKeepsCredentials | backend/routes/userRoutes.js:32-35 | no user's role, username, email or password changes, and no row other than the caller's changes |
| Destinations.PackageCount | backend/routes/destinationRoutes.js:11-14 | `package_count` is the number of packages with the destination's id, unavailable ones included |
| Destinations.Summarize | backend/routes/destinationRoutes.js:11-14 | a listed destination carries its own row and its package count |
| Destinations.DestinationsInOrder | backend/routes/destinationRoutes.js:10-16 | every destination row once, popular ones first, each group in name order |
| Destinations.KeyOrder | backend/routes/destinationRoutes.js:15 | two rows in key order have the popular one first, and name order when equally popular |
| Destinations.KeyOrderIsListingOrder | backend/routes/destinationRoutes.js:15 | a sequence sorted by the key is in listing order |
| Destinations.ListDestinations | backend/routes/destinationRoutes.js:8-21 | exactly one summary per stored destination, with its package count, popular ones before the others and name ascending among equals |
| Destinations.GetDestination | backend/routes/destinationRoutes.js:33-58 | NotFound exactly for an absent id; otherwise the stored row and exactly its packages that are available, as many as there are such rows |
| Destinations.DetailWithinCount | backend/routes/destinationRoutes.js:11-14 | the detail view lists no more packages than the listing counts for that destination |
| Destinations.CreateDestinationEffect | backend/routes/destinationRoutes.js:70-87 | admin only; always succeeds; inserts one destination under a fresh id with the supplied fields, popular only when a true flag is sent (false when it is omitted), returns the stored row, and changes no other table |
| Destinations.CreateDestination | backend/routes/destinationRoutes.js:70-87 | the in-place insert agrees with `CreateDestinationEffect` and keeps the database invariant |
| Destinations.CreatedDestinationIsFetched | backend/routes/destinationRoutes.js:79-87 | a destination just created is found by `GET /:id` and is the row the create answered with |

## Left out

- Timestamps. `CURDATE()` for `booking_date` and `created_at` are replaced by an abstract creation clock. The clock grows by one per inserted booking, package or review (a destination row has no creation time, so `CreateDestination` leaves it alone; user rows are seeded outside this model) and keys the "newest first" orderings. Ties between rows created within the same second are not modelled.
- Joined display columns: `package_title`, `destination_name`, `country`, `username`, `full_name` and the images. Results are the records themselves. The JOINs survive only as the row-presence conditions they impose.
- Packages.Summarize: `avg_rating` is the exact rational mean. MySQL's DECIMAL rounding of `AVG` is not modelled, and only its zero-when-empty case is stated.
- Destinations.NameLeq: `ORDER BY name` compares character codes, so "Banana" sorts before "apple". MySQL's collation and its case-insensitive ordering are not modelled.
- Query.Contains: `LIKE` is plain case-sensitive substring containment. Collation, case folding and the wildcard characters `%` and `_` inside user input are not modelled.
- Prices and totals are integers (the smallest currency unit). JavaScript floating-point multiplication of DECIMAL prices is not modelled.
- Query-string coercion: numeric filters are `Option<int>`, with `None` for an omitted or empty parameter. MySQL's coercion of non-numeric strings and of enum strings is not modelled.
- Concurrency: the read-then-write gap between a check and its INSERT/UPDATE, and races between requests. Each handler is one atomic step.
- Server errors (500), the try/catch blocks and database I/O failures.
- The `protect` and `authorize` middleware: the caller is an input, and admin-only routes require an admin caller.
- Bookings.CreateBooking: the answer is the stored booking. The handler answers with the row re-read through JOINs, which is empty when the package's destination row is missing.
- Inserts with absent body fields: NULL columns are not modelled, since every supplied field is a value.
- Database defaults the schema sets: booking `status` is pending, `payment_status` is pending and package `available` is true (the constants in `Store`). The schema file is not part of this model.
- Foreign-key actions on delete: `deletePackage` removes the package row only. Cascades or refusals that the schema might declare are not modelled.
- Review `rating` bounds: the handler accepts any value. A range the schema might impose is not modelled.
- Users.ListUsers: the password column is absent from `UserRow` by construction. No separate lemma states it.
- `backend/server.js`, `backend/config/database.js`, `backend/createUsers.js` and the frontend are not part of this model.
