/** The booking lifecycle of backend/controllers/bookingController.js:
    creation against an available package within its capacity, owner-or-admin
    reads, the admin's coalescing status update, the one-shot cancel and the
    single review a booking's owner may leave. */
module Bookings {
  import opened Query
  import opened Store

  /** The body of `POST /api/bookings`. */
  datatype BookingRequest = BookingRequest(
    packageId: Id, travelDate: string, numPeople: int, specialRequests: string)

  /** `SELECT * FROM packages WHERE package_id = ? AND available = 1` finds a row. */
  predicate Bookable(t: Tables, packageId: Id) {
    packageId in t.packages && t.packages[packageId].available
  }

  /** Owner-or-admin: the authorization rule of reading and cancelling. */
  predicate MayAccess(actor: Actor, b: Booking) {
    IsAdmin(actor) || b.userId == actor.id
  }

  /** The booking survives `JOIN packages p ... JOIN destinations d`. */
  predicate HasPackageRows(t: Tables, b: Booking) {
    b.packageId in t.packages && t.packages[b.packageId].destinationId in t.destinations
  }

  /** The booking also survives `JOIN users u`. */
  predicate HasAllRows(t: Tables, b: Booking) {
    b.userId in t.users && HasPackageRows(t, b)
  }

  /** `ORDER BY b.created_at DESC` as an ascending sort key. */
  function BookingKey(b: Booking): seq<int> {
    NewestFirstKey(b.created)
  }

  /** Some review already carries this `booking_id`. */
  predicate Reviewed(t: Tables, bookingId: Id) {
    exists k :: k in t.reviews && t.reviews[k].bookingId == bookingId
  }

  // ---------------------------------------------------------------- create

  function CreateBookingEffect(t: Tables, actor: Actor, req: BookingRequest): (e: Effect<Booking>)
    requires t.Valid()
    ensures e.tables.Valid()
    ensures e.response.NotFound? <==> !Bookable(t, req.packageId)
    ensures e.response.BadRequest? <==>
              Bookable(t, req.packageId) && req.numPeople > t.packages[req.packageId].maxPeople
    ensures e.response.Ok? <==>
              Bookable(t, req.packageId) && req.numPeople <= t.packages[req.packageId].maxPeople
    ensures !e.response.Ok? ==> e.tables == t
    ensures e.response.Ok? ==>
              var b := e.response.value;
              && b.id !in t.bookings
              && e.tables.bookings == t.bookings[b.id := b]
              && b.userId == actor.id
              && b.packageId == req.packageId
              && b.travelDate == req.travelDate
              && b.numPeople == req.numPeople
              && b.specialRequests == req.specialRequests
              && b.totalAmount == t.packages[req.packageId].price * req.numPeople
              && b.status == Pending && b.paymentStatus == PaymentPending
              // no other table changes
              && e.tables.(bookings := t.bookings, nextBooking := t.nextBooking, clock := t.clock) == t
  {
    if !Bookable(t, req.packageId) then Effect(NotFound, t)
    else
      var pkg := t.packages[req.packageId];
      if req.numPeople > pkg.maxPeople then Effect(BadRequest, t)
      else
        var b := Booking(t.nextBooking, actor.id, req.packageId, req.travelDate, req.numPeople,
                         pkg.price * req.numPeople, req.specialRequests,
                         DefaultStatus, DefaultPaymentStatus, t.clock);
        Effect(Ok(b), t.(bookings := t.bookings[b.id := b], nextBooking := t.nextBooking + 1,
                         clock := t.clock + 1))
  }

  method CreateBooking(db: Database, actor: Actor, req: BookingRequest) returns (r: Outcome<Booking>)
    requires db.Valid()
    modifies db
    ensures db.Valid()
    ensures Effect(r, db.State()) == CreateBookingEffect(old(db.State()), actor, req)
  {
    if req.packageId !in db.packages || !db.packages[req.packageId].available {
      return NotFound;
    }
    var pkg := db.packages[req.packageId];
    if req.numPeople > pkg.maxPeople {
      return BadRequest;
    }
    var booking := Booking(db.nextBooking, actor.id, req.packageId, req.travelDate, req.numPeople,
                           pkg.price * req.numPeople, req.specialRequests,
                           DefaultStatus, DefaultPaymentStatus, db.clock);
    db.bookings := db.bookings[booking.id := booking];
    db.nextBooking := db.nextBooking + 1;
    db.clock := db.clock + 1;
    r := Ok(booking);
  }

  // ----------------------------------------------------------------- reads

  /** `GET /api/bookings/my-bookings`. */
  function MyBookings(t: Tables, actor: Actor): (r: seq<Booking>)
    requires t.Valid()
    ensures forall b :: b in r ==> b in t.bookings.Values && b.userId == actor.id && HasPackageRows(t, b)
    ensures forall b :: b in t.bookings.Values && b.userId == actor.id && HasPackageRows(t, b) ==> b in r
    ensures |r| == |set k | k in t.bookings && t.bookings[k].userId == actor.id
                                           && HasPackageRows(t, t.bookings[k])|
    ensures forall i, j :: 0 <= i < j < |r| ==> r[i].created >= r[j].created
  {
    var mine := (b: Booking) => b.userId == actor.id && HasPackageRows(t, b);
    var r := SelectSorted(t.bookings, t.nextBooking, mine, BookingKey);
    NewestFirst(r, BookingKey, (b: Booking) => b.created);
    assert KeysWhere(t.bookings, mine)
        == (set k | k in t.bookings && t.bookings[k].userId == actor.id && HasPackageRows(t, t.bookings[k])) by {
      forall k ensures k in KeysWhere(t.bookings, mine)
                  <==> k in t.bookings && t.bookings[k].userId == actor.id && HasPackageRows(t, t.bookings[k]) {
      }
    }
    r
  }

  /** Under referential integrity the list is exactly the actor's bookings. */
  lemma MyBookingsExact(t: Tables, actor: Actor, b: Booking)
    requires t.Valid() && t.ReferencesIntact()
    ensures b in MyBookings(t, actor) <==> b in t.bookings.Values && b.userId == actor.id
  {
    if b in t.bookings.Values {
      var k :| k in t.bookings && t.bookings[k] == b;
      assert HasPackageRows(t, t.bookings[k]);
    }
  }

  /** The `status` / `payment_status` query filter; an absent value imposes
      no constraint. */
  predicate MatchesFilter(b: Booking, status: Option<BookingStatus>, payment: Option<PaymentStatus>) {
    && (status.Some? ==> b.status == status.value)
    && (payment.Some? ==> b.paymentStatus == payment.value)
  }

  /** The keys of the bookings `getAllBookings` selects. */
  function FilteredKeys(t: Tables, status: Option<BookingStatus>, payment: Option<PaymentStatus>): set<Id> {
    set k | k in t.bookings && MatchesFilter(t.bookings[k], status, payment) && HasAllRows(t, t.bookings[k])
  }

  /** `GET /api/bookings` (admin only). */
  function AllBookings(t: Tables, actor: Actor, status: Option<BookingStatus>, payment: Option<PaymentStatus>)
    : (r: seq<Booking>)
    requires IsAdmin(actor)
    requires t.Valid()
    ensures forall b :: b in r ==> b in t.bookings.Values && HasAllRows(t, b)
    ensures forall b :: b in r ==> status.Some? ==> b.status == status.value
    ensures forall b :: b in r ==> payment.Some? ==> b.paymentStatus == payment.value
    ensures forall b :: b in t.bookings.Values && MatchesFilter(b, status, payment) && HasAllRows(t, b) ==> b in r
    ensures |r| == |FilteredKeys(t, status, payment)|
    ensures forall i, j :: 0 <= i < j < |r| ==> r[i].created >= r[j].created
  {
    var selected := (b: Booking) => MatchesFilter(b, status, payment) && HasAllRows(t, b);
    var r := SelectSorted(t.bookings, t.nextBooking, selected, BookingKey);
    NewestFirst(r, BookingKey, (b: Booking) => b.created);
    assert KeysWhere(t.bookings, selected) == FilteredKeys(t, status, payment) by {
      forall k ensures k in KeysWhere(t.bookings, selected) <==> k in FilteredKeys(t, status, payment) {
      }
    }
    r
  }

  /** Without filters and under referential integrity the admin sees every booking. */
  lemma AllBookingsUnfiltered(t: Tables, actor: Actor, b: Booking)
    requires IsAdmin(actor)
    requires t.Valid() && t.ReferencesIntact()
    requires b in t.bookings.Values
    ensures b in AllBookings(t, actor, None, None)
  {
    var k :| k in t.bookings && t.bookings[k] == b;
    assert HasAllRows(t, t.bookings[k]);
  }

  /** `GET /api/bookings/:id`. */
  function GetBooking(t: Tables, actor: Actor, id: Id): (r: Outcome<Booking>)
    ensures r.NotFound? <==> !(id in t.bookings && HasAllRows(t, t.bookings[id]))
    ensures r.Forbidden? <==>
              id in t.bookings && HasAllRows(t, t.bookings[id]) && !MayAccess(actor, t.bookings[id])
    ensures !r.BadRequest?
    ensures r.Ok? ==> id in t.bookings && r.value == t.bookings[id] && MayAccess(actor, r.value)
  {
    if id !in t.bookings || !HasAllRows(t, t.bookings[id]) then NotFound
    else if !MayAccess(actor, t.bookings[id]) then Forbidden
    else Ok(t.bookings[id])
  }

  /** Under referential integrity the JOINs drop nothing: a booking is not
      found only when its id is absent. */
  lemma GetBookingIntact(t: Tables, actor: Actor, id: Id)
    requires t.ReferencesIntact()
    ensures GetBooking(t, actor, id).NotFound? <==> id !in t.bookings
  {
    if id in t.bookings {
      assert HasAllRows(t, t.bookings[id]);
    }
  }

  // ---------------------------------------------------------- status update

  function UpdateStatusEffect(t: Tables, actor: Actor, id: Id,
                              status: Option<BookingStatus>, payment: Option<PaymentStatus>)
    : (e: Effect<Booking>)
    requires IsAdmin(actor)
    requires t.Valid()
    ensures e.tables.Valid()
    ensures e.response.NotFound? <==> id !in t.bookings
    ensures e.response.Ok? <==> id in t.bookings
    ensures e.response.NotFound? ==> e.tables == t
    ensures e.response.Ok? ==>
              var was := t.bookings[id];
              var b := e.response.value;
              && (status.Some? ==> b.status == status.value)
              && (status.None? ==> b.status == was.status)
              && (payment.Some? ==> b.paymentStatus == payment.value)
              && (payment.None? ==> b.paymentStatus == was.paymentStatus)
              // every other column keeps its value
              && b.(status := was.status, paymentStatus := was.paymentStatus) == was
              && e.tables == t.(bookings := t.bookings[id := b])
  {
    if id !in t.bookings then Effect(NotFound, t)
    else
      var was := t.bookings[id];
      var b := was.(status := Coalesce(status, was.status),
                    paymentStatus := Coalesce(payment, was.paymentStatus));
      Effect(Ok(b), t.(bookings := t.bookings[id := b]))
  }

  method UpdateBookingStatus(db: Database, actor: Actor, id: Id,
                             status: Option<BookingStatus>, payment: Option<PaymentStatus>)
    returns (r: Outcome<Booking>)
    requires IsAdmin(actor)
    requires db.Valid()
    modifies db
    ensures db.Valid()
    ensures Effect(r, db.State()) == UpdateStatusEffect(old(db.State()), actor, id, status, payment)
  {
    if id !in db.bookings {
      return NotFound;
    }
    var booking := db.bookings[id];
    if status.Some? {
      booking := booking.(status := status.value);
    }
    if payment.Some? {
      booking := booking.(paymentStatus := payment.value);
    }
    db.bookings := db.bookings[id := booking];
    r := Ok(booking);
  }

  /** No transition is checked: an admin can move any booking to any status,
      a completed or cancelled one included. */
  lemma AnyStatusReachable(t: Tables, actor: Actor, id: Id, target: BookingStatus)
    requires IsAdmin(actor)
    requires t.Valid() && id in t.bookings
    ensures var e := UpdateStatusEffect(t, actor, id, Some(target), None);
            e.response.Ok? && e.tables.bookings[id].status == target
            && e.tables.bookings[id].paymentStatus == t.bookings[id].paymentStatus
  {
  }

  // ---------------------------------------------------------------- cancel

  function CancelEffect(t: Tables, actor: Actor, id: Id): (e: Effect<()>)
    requires t.Valid()
    ensures e.tables.Valid()
    ensures e.response.NotFound? <==> id !in t.bookings
    ensures e.response.Forbidden? <==> id in t.bookings && !MayAccess(actor, t.bookings[id])
    ensures e.response.BadRequest? <==>
              id in t.bookings && MayAccess(actor, t.bookings[id]) && t.bookings[id].status == Cancelled
    ensures !e.response.Ok? ==> e.tables == t
    ensures e.response.Ok? ==>
              var was := t.bookings[id];
              && was.status != Cancelled
              && e.tables == t.(bookings := t.bookings[id := was.(status := Cancelled)])
              && e.tables.bookings[id].status == Cancelled
              && e.tables.bookings[id].paymentStatus == was.paymentStatus
  {
    if id !in t.bookings then Effect(NotFound, t)
    else
      var was := t.bookings[id];
      if !MayAccess(actor, was) then Effect(Forbidden, t)
      else if was.status == Cancelled then Effect(BadRequest, t)
      else Effect(Ok(()), t.(bookings := t.bookings[id := was.(status := Cancelled)]))
  }

  method CancelBooking(db: Database, actor: Actor, id: Id) returns (r: Outcome<()>)
    requires db.Valid()
    modifies db
    ensures db.Valid()
    ensures Effect(r, db.State()) == CancelEffect(old(db.State()), actor, id)
  {
    if id !in db.bookings {
      return NotFound;
    }
    var booking := db.bookings[id];
    if booking.userId != actor.id && !IsAdmin(actor) {
      return Forbidden;
    }
    if booking.status == Cancelled {
      return BadRequest;
    }
    db.bookings := db.bookings[id := booking.(status := Cancelled)];
    r := Ok(());
  }

  /** Cancelling is one-shot: once a cancel succeeds, no later cancel of the
      same booking succeeds or changes anything, and one by an authorized
      actor is refused as a bad request. */
  lemma CancelIsOneShot(t: Tables, actor: Actor, other: Actor, id: Id)
    requires t.Valid()
    requires CancelEffect(t, actor, id).response.Ok?
    ensures var first := CancelEffect(t, actor, id).tables;
            var again := CancelEffect(first, other, id);
            && !again.response.Ok?
            && again.tables == first
            && (MayAccess(other, t.bookings[id]) ==> again.response == BadRequest)
  {
  }

  // ---------------------------------------------------------------- review

  function AddReviewEffect(t: Tables, actor: Actor, bookingId: Id, rating: int, comment: string)
    : (e: Effect<()>)
    requires t.Valid()
    ensures e.tables.Valid()
    ensures e.response.NotFound? <==> !(bookingId in t.bookings && t.bookings[bookingId].userId == actor.id)
    ensures e.response.BadRequest? <==>
              bookingId in t.bookings && t.bookings[bookingId].userId == actor.id && Reviewed(t, bookingId)
    ensures !e.response.Forbidden?
    ensures !e.response.Ok? ==> e.tables == t
    ensures e.response.Ok? ==>
              var k := t.nextReview;
              && k !in t.reviews
              && e.tables.reviews.Keys == t.reviews.Keys + {k}
              && (forall j :: j in t.reviews ==> e.tables.reviews[j] == t.reviews[j])
              && e.tables.reviews[k].userId == actor.id
              && e.tables.reviews[k].packageId == t.bookings[bookingId].packageId
              && e.tables.reviews[k].bookingId == bookingId
              && e.tables.reviews[k].rating == rating
              && e.tables.reviews[k].comment == comment
              // no other table changes
              && e.tables.(reviews := t.reviews, nextReview := t.nextReview, clock := t.clock) == t
  {
    if bookingId !in t.bookings || t.bookings[bookingId].userId != actor.id then Effect(NotFound, t)
    else if Reviewed(t, bookingId) then Effect(BadRequest, t)
    else
      var rev := Review(t.nextReview, actor.id, t.bookings[bookingId].packageId, bookingId,
                        rating, comment, t.clock);
      var after := t.(reviews := t.reviews[rev.id := rev], nextReview := t.nextReview + 1,
                      clock := t.clock + 1);
      assert OneReviewPerBooking(after.reviews);
      Effect(Ok(()), after)
  }

  method AddReview(db: Database, actor: Actor, bookingId: Id, rating: int, comment: string)
    returns (r: Outcome<()>)
    requires db.Valid()
    modifies db
    ensures db.Valid()
    ensures Effect(r, db.State()) == AddReviewEffect(old(db.State()), actor, bookingId, rating, comment)
  {
    if bookingId !in db.bookings || db.bookings[bookingId].userId != actor.id {
      return NotFound;
    }
    var booking := db.bookings[bookingId];
    if exists k :: k in db.reviews && db.reviews[k].bookingId == bookingId {
      return BadRequest;
    }
    var review := Review(db.nextReview, actor.id, booking.packageId, bookingId, rating, comment, db.clock);
    db.reviews := db.reviews[review.id := review];
    db.nextReview := db.nextReview + 1;
    db.clock := db.clock + 1;
    r := Ok(());
  }

  /** A booking is reviewed at most once: after one review is accepted, every
      further review of that booking by its owner is refused. */
  lemma SecondReviewRefused(t: Tables, actor: Actor, bookingId: Id,
                            rating: int, comment: string, rating': int, comment': string)
    requires t.Valid()
    requires AddReviewEffect(t, actor, bookingId, rating, comment).response.Ok?
    ensures var first := AddReviewEffect(t, actor, bookingId, rating, comment).tables;
            var again := AddReviewEffect(first, actor, bookingId, rating', comment');
            again.response == BadRequest && again.tables == first
  {
    var first := AddReviewEffect(t, actor, bookingId, rating, comment).tables;
    assert first.reviews[t.nextReview].bookingId == bookingId;
  }

  // --------------------------------------------------------------- scenario

  /** A package priced 500 for at most 4 people, booked for 2: the booking
      costs 1000 and is pending; an admin confirms it; its owner cancels it;
      a second cancel is refused. */
  lemma Scenario(actor: Actor, admin: Actor, pkg: Package)
    requires IsAdmin(admin) && !IsAdmin(actor)
    requires pkg.id == 0 && pkg.price == 500 && pkg.maxPeople == 4 && pkg.available
    ensures
      var t := Tables(map[], map[], map[0 := pkg], map[], map[], 0, 0, 1, 0, 0, 0);
      var booked := CreateBookingEffect(t, actor, BookingRequest(0, "2025-01-01", 2, ""));
      && booked.response.Ok?
      && booked.response.value.totalAmount == 1000
      && booked.response.value.status == Pending
      && var id := booked.response.value.id;
         var confirmed := UpdateStatusEffect(booked.tables, admin, id, Some(Confirmed), None);
         && confirmed.response.Ok? && confirmed.response.value.status == Confirmed
         && var cancelled := CancelEffect(confirmed.tables, actor, id);
            && cancelled.response.Ok?
            && cancelled.tables.bookings[id].status == Cancelled
            && CancelEffect(cancelled.tables, actor, id).response == BadRequest
  {
    var t := Tables(map[], map[], map[0 := pkg], map[], map[], 0, 0, 1, 0, 0, 0);
    assert t.Valid();
  }
}
