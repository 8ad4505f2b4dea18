/** The abstract in-memory database behind the handlers: the five tables
    `users`, `destinations`, `packages`, `bookings` and `reviews`, each a map
    from its auto-increment id to a row, and the outcomes a handler reports. */
module Store {
  import opened Query

  type Id = nat

  datatype Option<+T> = None | Some(value: T)

  /** SQL `COALESCE(?, column)`: a supplied value replaces the stored one, while
      NULL (what an omitted or null JSON field becomes) keeps it. */
  function Coalesce<T>(supplied: Option<T>, stored: T): T {
    match supplied
    case Some(v) => v
    case None => stored
  }

  /** The HTTP outcome of a handler: 200/201, 404, 403 or 400. */
  datatype Outcome<+T> = Ok(value: T) | NotFound | Forbidden | BadRequest

  datatype Role = Customer | Admin

  /** The authenticated caller `{id, role}` that the `protect` middleware
      attaches to the request. */
  datatype Actor = Actor(id: Id, role: Role)

  predicate IsAdmin(actor: Actor) {
    actor.role == Admin
  }

  datatype BookingStatus = Pending | Confirmed | Completed | Cancelled

  datatype PaymentStatus = PaymentPending | Paid | Refunded

  datatype User = User(
    id: Id, username: string, email: string, password: string,
    fullName: string, phone: string, role: Role, created: nat)

  datatype Destination = Destination(
    id: Id, name: string, country: string, description: string,
    imageUrl: string, popular: bool)

  /** `price` is in the currency's smallest unit, so prices are integers. */
  datatype Package = Package(
    id: Id, destinationId: Id, title: string, description: string,
    durationDays: int, durationNights: int, price: int, maxPeople: int,
    includedServices: string, excludedServices: string, itinerary: string,
    imageUrl: string, available: bool, created: nat)

  datatype Booking = Booking(
    id: Id, userId: Id, packageId: Id, travelDate: string, numPeople: int,
    totalAmount: int, specialRequests: string, status: BookingStatus,
    paymentStatus: PaymentStatus, created: nat)

  datatype Review = Review(
    id: Id, userId: Id, packageId: Id, bookingId: Id, rating: int,
    comment: string, created: nat)

  /** Column defaults of the schema, which the handlers rely on when an
      INSERT leaves a column out. */
  const DefaultStatus: BookingStatus := Pending
  const DefaultPaymentStatus: PaymentStatus := PaymentPending
  const DefaultAvailable: bool := true

  /** No two reviews share a `booking_id`. */
  ghost predicate OneReviewPerBooking(reviews: map<Id, Review>) {
    forall i, j :: i in reviews && j in reviews && reviews[i].bookingId == reviews[j].bookingId ==> i == j
  }

  /** A snapshot of the database: the five tables, the next auto-increment
      value of each, and `clock`, the abstract creation time the next inserted
      row gets (what `created_at` orders by). */
  datatype Tables = Tables(
    users: map<Id, User>,
    destinations: map<Id, Destination>,
    packages: map<Id, Package>,
    bookings: map<Id, Booking>,
    reviews: map<Id, Review>,
    nextUser: nat, nextDestination: nat, nextPackage: nat,
    nextBooking: nat, nextReview: nat,
    clock: nat)
  {
    /** Auto-increment keys stay below their counter, every row carries its
        own key as id, and each booking has at most one review. */
    ghost predicate Valid() {
      && KeysBelow(users, nextUser)
      && KeysBelow(destinations, nextDestination)
      && KeysBelow(packages, nextPackage)
      && KeysBelow(bookings, nextBooking)
      && KeysBelow(reviews, nextReview)
      && (forall k :: k in users ==> users[k].id == k)
      && (forall k :: k in destinations ==> destinations[k].id == k)
      && (forall k :: k in packages ==> packages[k].id == k)
      && (forall k :: k in bookings ==> bookings[k].id == k)
      && (forall k :: k in reviews ==> reviews[k].id == k)
      && OneReviewPerBooking(reviews)
    }

    /** What foreign keys would guarantee: every row a booking, package or
        review points to exists. */
    ghost predicate ReferencesIntact() {
      && (forall k :: k in bookings ==> bookings[k].userId in users)
      && (forall k :: k in bookings ==> bookings[k].packageId in packages)
      && (forall k :: k in packages ==> packages[k].destinationId in destinations)
      && (forall k :: k in reviews ==> reviews[k].userId in users)
    }
  }

  /** What a handler answers and the database it leaves behind. */
  datatype Effect<+T> = Effect(response: Outcome<T>, tables: Tables)

  /** The database connection the handlers share; each handler changes its
      tables in place. */
  class Database {
    var users: map<Id, User>
    var destinations: map<Id, Destination>
    var packages: map<Id, Package>
    var bookings: map<Id, Booking>
    var reviews: map<Id, Review>
    var nextUser: nat
    var nextDestination: nat
    var nextPackage: nat
    var nextBooking: nat
    var nextReview: nat
    var clock: nat

    constructor (t: Tables)
      ensures State() == t
    {
      users, destinations, packages, bookings, reviews := t.users, t.destinations, t.packages, t.bookings, t.reviews;
      nextUser, nextDestination, nextPackage := t.nextUser, t.nextDestination, t.nextPackage;
      nextBooking, nextReview, clock := t.nextBooking, t.nextReview, t.clock;
    }

    /** The current contents of the database as a value. */
    function State(): Tables
      reads this
    {
      Tables(users, destinations, packages, bookings, reviews,
             nextUser, nextDestination, nextPackage, nextBooking, nextReview, clock)
    }

    ghost predicate Valid()
      reads this
    {
      State().Valid()
    }
  }
}
