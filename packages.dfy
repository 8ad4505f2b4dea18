/** The package catalog of backend/controllers/packageController.js: the
    filtered listing with review statistics, the detail view with its
    reviews, and the admin's create, coalescing update and hard delete. */
module Packages {
  import opened Query
  import opened Store

  /** The query string of `GET /api/packages`. A numeric filter is `None`
      when the parameter is omitted or empty (both falsy in JavaScript);
      `destination` and `available` keep the raw string. */
  datatype PackageFilter = PackageFilter(
    destination: Option<string>, minPrice: Option<int>, maxPrice: Option<int>,
    available: Option<string>)

  /** `if (destination)`: the parameter is present and not the empty string. */
  predicate DestinationGiven(f: PackageFilter) {
    f.destination.Some? && f.destination.value != ""
  }

  /** `d.name LIKE '%q%'` through `LEFT JOIN destinations d`: a package whose
      destination row is missing has a NULL name and never matches. */
  predicate InDestinationNamed(t: Tables, p: Package, q: string) {
    p.destinationId in t.destinations && Contains(t.destinations[p.destinationId].name, q)
  }

  /** The WHERE clause `getPackages` assembles. */
  predicate Matches(t: Tables, f: PackageFilter, p: Package) {
    && (DestinationGiven(f) ==> InDestinationNamed(t, p, f.destination.value))
    && (f.minPrice.Some? ==> p.price >= f.minPrice.value)
    && (f.maxPrice.Some? ==> p.price <= f.maxPrice.value)
    && (f.available.Some? ==> p.available == (f.available.value == "true"))
  }

  /** A package row with `review_count` and `avg_rating`. */
  datatype PackageSummary = PackageSummary(pkg: Package, reviewCount: nat, avgRating: real)

  /** A package with its reviews, as `GET /api/packages/:id` answers. */
  datatype PackageDetail = PackageDetail(summary: PackageSummary, reviews: seq<Review>)

  function SumRatings(rs: seq<Review>): int {
    if |rs| == 0 then 0 else rs[0].rating + SumRatings(rs[1..])
  }

  /** `COALESCE(AVG(r.rating), 0)` as an exact rational. */
  function MeanRating(rs: seq<Review>): real {
    if |rs| == 0 then 0.0 else (SumRatings(rs) as real) / (|rs| as real)
  }

  /** `ORDER BY created_at DESC` as an ascending sort key. */
  function PackageKey(p: Package): seq<int> {
    NewestFirstKey(p.created)
  }

  function ReviewKey(r: Review): seq<int> {
    NewestFirstKey(r.created)
  }

  /** The aggregate columns of one package over `LEFT JOIN reviews r`. */
  function Summarize(t: Tables, p: Package): (s: PackageSummary)
    requires t.Valid()
    ensures s.pkg == p
    ensures s.reviewCount == |set k | k in t.reviews && t.reviews[k].packageId == p.id|
    ensures s.reviewCount == 0 ==> s.avgRating == 0.0
  {
    var ofPackage := (r: Review) => r.packageId == p.id;
    var rs := Select(t.reviews, t.nextReview, ofPackage);
    assert KeysWhere(t.reviews, ofPackage) == (set k | k in t.reviews && t.reviews[k].packageId == p.id) by {
      forall k ensures k in KeysWhere(t.reviews, ofPackage) <==> k in t.reviews && t.reviews[k].packageId == p.id {
      }
    }
    PackageSummary(p, |rs|, MeanRating(rs))
  }

  // ---------------------------------------------------------------- reads

  /** The rows `getPackages` selects, newest first. */
  function MatchingPackages(t: Tables, f: PackageFilter): (rows: seq<Package>)
    requires t.Valid()
    ensures forall p :: p in rows ==> p in t.packages.Values && Matches(t, f, p)
    ensures forall p :: p in t.packages.Values && Matches(t, f, p) ==> p in rows
    ensures |rows| == |set k | k in t.packages && Matches(t, f, t.packages[k])|
    ensures forall i, j :: 0 <= i < j < |rows| ==> rows[i].created >= rows[j].created
  {
    var matching := (p: Package) => Matches(t, f, p);
    var sorted := SelectSorted(t.packages, t.nextPackage, matching, PackageKey);
    NewestFirst(sorted, PackageKey, (p: Package) => p.created);
    assert KeysWhere(t.packages, matching) == (set k | k in t.packages && Matches(t, f, t.packages[k])) by {
      forall k ensures k in KeysWhere(t.packages, matching) <==> k in t.packages && Matches(t, f, t.packages[k]) {
      }
    }
    sorted
  }

  /** Summarizing the selected rows, in their order, gives the listing. */
  lemma SummariesOfMatches(t: Tables, f: PackageFilter, rows: seq<Package>, r: seq<PackageSummary>)
    requires t.Valid()
    requires forall p :: p in rows ==> p in t.packages.Values && Matches(t, f, p)
    requires forall p :: p in t.packages.Values && Matches(t, f, p) ==> p in rows
    requires forall i, j :: 0 <= i < j < |rows| ==> rows[i].created >= rows[j].created
    requires |r| == |rows| && forall i :: 0 <= i < |rows| ==> r[i] == Summarize(t, rows[i])
    ensures forall i :: 0 <= i < |r| ==>
              r[i].pkg in t.packages.Values && Matches(t, f, r[i].pkg) && r[i] == Summarize(t, r[i].pkg)
    ensures forall p :: p in t.packages.Values && Matches(t, f, p) ==> Summarize(t, p) in r
    ensures forall i, j :: 0 <= i < j < |r| ==> r[i].pkg.created >= r[j].pkg.created
  {
    forall i | 0 <= i < |r|
      ensures r[i].pkg in t.packages.Values && Matches(t, f, r[i].pkg) && r[i] == Summarize(t, r[i].pkg)
    {
      assert r[i].pkg == rows[i] && rows[i] in rows;
    }
    forall p | p in t.packages.Values && Matches(t, f, p) ensures Summarize(t, p) in r {
      var i :| 0 <= i < |rows| && rows[i] == p;
      assert r[i] == Summarize(t, p);
    }
    forall i, j | 0 <= i < j < |r| ensures r[i].pkg.created >= r[j].pkg.created {
      assert r[i].pkg == rows[i] && r[j].pkg == rows[j];
    }
  }

  /** `GET /api/packages`. */
  function ListPackages(t: Tables, f: PackageFilter): (r: seq<PackageSummary>)
    requires t.Valid()
    ensures forall i :: 0 <= i < |r| ==>
              r[i].pkg in t.packages.Values && Matches(t, f, r[i].pkg) && r[i] == Summarize(t, r[i].pkg)
    ensures forall p :: p in t.packages.Values && Matches(t, f, p) ==> Summarize(t, p) in r
    ensures |r| == |set k | k in t.packages && Matches(t, f, t.packages[k])|
    ensures forall i, j :: 0 <= i < j < |r| ==> r[i].pkg.created >= r[j].pkg.created
  {
    var rows := MatchingPackages(t, f);
    var r := Project(rows, (p: Package) => Summarize(t, p));
    SummariesOfMatches(t, f, rows, r);
    r
  }

  /** Each query parameter that is given narrows the listing as the WHERE
      clause says. */
  lemma ListPackagesHonoursFilters(t: Tables, f: PackageFilter, s: PackageSummary)
    requires t.Valid()
    requires s in ListPackages(t, f)
    ensures f.minPrice.Some? ==> s.pkg.price >= f.minPrice.value
    ensures f.maxPrice.Some? ==> s.pkg.price <= f.maxPrice.value
    ensures DestinationGiven(f) ==>
              s.pkg.destinationId in t.destinations
              && exists i :: OccursAt(t.destinations[s.pkg.destinationId].name, f.destination.value, i)
    ensures f.available == Some("true") ==> s.pkg.available
    ensures f.available.Some? && f.available.value != "true" ==> !s.pkg.available
  {
    var r := ListPackages(t, f);
    var i :| 0 <= i < |r| && r[i] == s;
    if DestinationGiven(f) {
      ContainsIffOccurs(t.destinations[s.pkg.destinationId].name, f.destination.value);
    }
  }

  /** With no parameter at all, every package is listed. */
  lemma ListPackagesUnfiltered(t: Tables, p: Package)
    requires t.Valid() && p in t.packages.Values
    ensures Summarize(t, p) in ListPackages(t, PackageFilter(None, None, None, None))
  {
  }

  /** The keys of the reviews `getPackage` lists: those of the package whose
      author row exists (`JOIN users u`). */
  function ListedReviewKeys(t: Tables, id: Id): set<Id> {
    set k | k in t.reviews && t.reviews[k].packageId == id && t.reviews[k].userId in t.users
  }

  /** `GET /api/packages/:id`. */
  function GetPackage(t: Tables, id: Id): (r: Outcome<PackageDetail>)
    requires t.Valid()
    ensures r.NotFound? <==> id !in t.packages
    ensures r.Ok? || r.NotFound?
    ensures r.Ok? ==>
              && r.value.summary == Summarize(t, t.packages[id])
              && (forall v :: v in r.value.reviews ==> v in t.reviews.Values && v.packageId == id && v.userId in t.users)
              && (forall v :: v in t.reviews.Values && v.packageId == id && v.userId in t.users ==> v in r.value.reviews)
              && |r.value.reviews| == |ListedReviewKeys(t, id)|
              && (forall i, j :: 0 <= i < j < |r.value.reviews| ==>
                    r.value.reviews[i].created >= r.value.reviews[j].created)
  {
    if id !in t.packages then NotFound
    else
      // `JOIN users u` drops reviews whose author row is missing
      var listed := (v: Review) => v.packageId == id && v.userId in t.users;
      var sorted := SelectSorted(t.reviews, t.nextReview, listed, ReviewKey);
      NewestFirst(sorted, ReviewKey, (v: Review) => v.created);
      assert KeysWhere(t.reviews, listed) == ListedReviewKeys(t, id) by {
        forall k ensures k in KeysWhere(t.reviews, listed) <==> k in ListedReviewKeys(t, id) {
        }
      }
      Ok(PackageDetail(Summarize(t, t.packages[id]), sorted))
  }

  /** The keys of every stored review of package `id`. */
  function ReviewKeysOf(t: Tables, id: Id): set<Id> {
    set k | k in t.reviews && t.reviews[k].packageId == id
  }

  /** Under referential integrity every review's author row exists. */
  lemma AuthorsIntact(t: Tables, id: Id)
    requires t.ReferencesIntact()
    ensures ListedReviewKeys(t, id) == ReviewKeysOf(t, id)
  {
    forall k | k in ReviewKeysOf(t, id) ensures k in ListedReviewKeys(t, id) {
      assert t.reviews[k].userId in t.users;
    }
  }

  /** Under referential integrity a list of exactly the reviews of package
      `id` whose author exists is a list of exactly its reviews. */
  lemma AllReviewsListed(t: Tables, id: Id, rs: seq<Review>, v: Review)
    requires t.ReferencesIntact()
    requires forall w :: w in rs ==> w in t.reviews.Values && w.packageId == id
    requires forall w :: w in t.reviews.Values && w.packageId == id && w.userId in t.users ==> w in rs
    ensures v in rs <==> v in t.reviews.Values && v.packageId == id
  {
    if v in t.reviews.Values {
      var k :| k in t.reviews && t.reviews[k] == v;
      assert v.userId in t.users;
    }
  }

  /** Under referential integrity the `JOIN users` drops nothing: the detail
      view lists exactly the reviews of the package, one per review row. */
  lemma GetPackageReviewsIntact(t: Tables, id: Id, v: Review)
    requires t.Valid() && t.ReferencesIntact() && id in t.packages
    ensures GetPackage(t, id).Ok?
    ensures v in GetPackage(t, id).value.reviews <==> v in t.reviews.Values && v.packageId == id
    ensures |GetPackage(t, id).value.reviews| == |ReviewKeysOf(t, id)|
  {
    AllReviewsListed(t, id, GetPackage(t, id).value.reviews, v);
    AuthorsIntact(t, id);
  }

  // -------------------------------------------------------------- create

  /** The body of `POST /api/packages`; `available` is not among them. */
  datatype PackageFields = PackageFields(
    destinationId: Id, title: string, description: string,
    durationDays: int, durationNights: int, price: int, maxPeople: int,
    includedServices: string, excludedServices: string, itinerary: string,
    imageUrl: string)

  function CreatePackageEffect(t: Tables, actor: Actor, fields: PackageFields): (e: Effect<Package>)
    requires IsAdmin(actor)
    requires t.Valid()
    ensures e.tables.Valid()
    ensures e.response.Ok?
    ensures var p := e.response.value;
            && p.id !in t.packages
            && e.tables.packages == t.packages[p.id := p]
            && p.destinationId == fields.destinationId && p.title == fields.title
            && p.description == fields.description
            && p.durationDays == fields.durationDays && p.durationNights == fields.durationNights
            && p.price == fields.price && p.maxPeople == fields.maxPeople
            && p.includedServices == fields.includedServices
            && p.excludedServices == fields.excludedServices
            && p.itinerary == fields.itinerary && p.imageUrl == fields.imageUrl
            && p.available == DefaultAvailable
            // no other table changes
            && e.tables.(packages := t.packages, nextPackage := t.nextPackage, clock := t.clock) == t
  {
    var p := Package(t.nextPackage, fields.destinationId, fields.title, fields.description,
                     fields.durationDays, fields.durationNights, fields.price, fields.maxPeople,
                     fields.includedServices, fields.excludedServices, fields.itinerary,
                     fields.imageUrl, DefaultAvailable, t.clock);
    Effect(Ok(p), t.(packages := t.packages[p.id := p], nextPackage := t.nextPackage + 1,
                     clock := t.clock + 1))
  }

  method CreatePackage(db: Database, actor: Actor, fields: PackageFields) returns (r: Outcome<Package>)
    requires IsAdmin(actor)
    requires db.Valid()
    modifies db
    ensures db.Valid()
    ensures Effect(r, db.State()) == CreatePackageEffect(old(db.State()), actor, fields)
  {
    var p := Package(db.nextPackage, fields.destinationId, fields.title, fields.description,
                     fields.durationDays, fields.durationNights, fields.price, fields.maxPeople,
                     fields.includedServices, fields.excludedServices, fields.itinerary,
                     fields.imageUrl, DefaultAvailable, db.clock);
    db.packages := db.packages[p.id := p];
    db.nextPackage := db.nextPackage + 1;
    db.clock := db.clock + 1;
    r := Ok(p);
  }

  // -------------------------------------------------------------- update

  /** The body of `PUT /api/packages/:id`; `None` is an omitted or null field. */
  datatype PackagePatch = PackagePatch(
    destinationId: Option<Id>, title: Option<string>, description: Option<string>,
    durationDays: Option<int>, durationNights: Option<int>, price: Option<int>,
    maxPeople: Option<int>, includedServices: Option<string>,
    excludedServices: Option<string>, itinerary: Option<string>,
    imageUrl: Option<string>, available: Option<bool>)

  /** A supplied value is taken, an absent one leaves the column as it was. */
  predicate Patched<T(==)>(supplied: Option<T>, before: T, after: T) {
    && (supplied.Some? ==> after == supplied.value)
    && (supplied.None? ==> after == before)
  }

  function ApplyPatch(p: Package, patch: PackagePatch): Package {
    p.(destinationId := Coalesce(patch.destinationId, p.destinationId),
       title := Coalesce(patch.title, p.title),
       description := Coalesce(patch.description, p.description),
       durationDays := Coalesce(patch.durationDays, p.durationDays),
       durationNights := Coalesce(patch.durationNights, p.durationNights),
       price := Coalesce(patch.price, p.price),
       maxPeople := Coalesce(patch.maxPeople, p.maxPeople),
       includedServices := Coalesce(patch.includedServices, p.includedServices),
       excludedServices := Coalesce(patch.excludedServices, p.excludedServices),
       itinerary := Coalesce(patch.itinerary, p.itinerary),
       imageUrl := Coalesce(patch.imageUrl, p.imageUrl),
       available := Coalesce(patch.available, p.available))
  }

  function UpdatePackageEffect(t: Tables, actor: Actor, id: Id, patch: PackagePatch): (e: Effect<Package>)
    requires IsAdmin(actor)
    requires t.Valid()
    ensures e.tables.Valid()
    ensures e.response.NotFound? <==> id !in t.packages
    ensures e.response.Ok? <==> id in t.packages
    ensures e.response.NotFound? ==> e.tables == t
    ensures e.response.Ok? ==>
              var was := t.packages[id];
              var p := e.response.value;
              && e.tables == t.(packages := t.packages[id := p])
              && p.id == id && p.created == was.created
              && Patched(patch.destinationId, was.destinationId, p.destinationId)
              && Patched(patch.title, was.title, p.title)
              && Patched(patch.description, was.description, p.description)
              && Patched(patch.durationDays, was.durationDays, p.durationDays)
              && Patched(patch.durationNights, was.durationNights, p.durationNights)
              && Patched(patch.price, was.price, p.price)
              && Patched(patch.maxPeople, was.maxPeople, p.maxPeople)
              && Patched(patch.includedServices, was.includedServices, p.includedServices)
              && Patched(patch.excludedServices, was.excludedServices, p.excludedServices)
              && Patched(patch.itinerary, was.itinerary, p.itinerary)
              && Patched(patch.imageUrl, was.imageUrl, p.imageUrl)
              && Patched(patch.available, was.available, p.available)
  {
    if id !in t.packages then Effect(NotFound, t)
    else
      var p := ApplyPatch(t.packages[id], patch);
      Effect(Ok(p), t.(packages := t.packages[id := p]))
  }

  method UpdatePackage(db: Database, actor: Actor, id: Id, patch: PackagePatch) returns (r: Outcome<Package>)
    requires IsAdmin(actor)
    requires db.Valid()
    modifies db
    ensures db.Valid()
    ensures Effect(r, db.State()) == UpdatePackageEffect(old(db.State()), actor, id, patch)
  {
    if id !in db.packages {
      return NotFound;
    }
    var p := ApplyPatch(db.packages[id], patch);
    db.packages := db.packages[id := p];
    r := Ok(p);
  }

  /** A booking's `total_amount` is a snapshot: changing the package's price
      afterwards leaves every booking as it was. */
  lemma RepricingKeepsTotals(t: Tables, actor: Actor, id: Id, price: int, k: Id)
    requires IsAdmin(actor)
    requires t.Valid() && k in t.bookings
    ensures var patch := PackagePatch(None, None, None, None, None, Some(price), None, None, None, None, None, None);
            var e := UpdatePackageEffect(t, actor, id, patch);
            k in e.tables.bookings && e.tables.bookings[k].totalAmount == t.bookings[k].totalAmount
  {
  }

  // -------------------------------------------------------------- delete

  function DeletePackageEffect(t: Tables, actor: Actor, id: Id): (e: Effect<()>)
    requires IsAdmin(actor)
    requires t.Valid()
    ensures e.tables.Valid()
    ensures e.response.NotFound? <==> id !in t.packages
    ensures e.response.Ok? <==> id in t.packages
    ensures e.response.NotFound? ==> e.tables == t
    ensures e.response.Ok? ==>
              && e.tables.packages.Keys == t.packages.Keys - {id}
              && (forall k :: k in e.tables.packages ==> e.tables.packages[k] == t.packages[k])
              && e.tables.(packages := t.packages) == t
  {
    if id !in t.packages then Effect(NotFound, t)
    else Effect(Ok(()), t.(packages := t.packages - {id}))
  }

  method DeletePackage(db: Database, actor: Actor, id: Id) returns (r: Outcome<()>)
    requires IsAdmin(actor)
    requires db.Valid()
    modifies db
    ensures db.Valid()
    ensures Effect(r, db.State()) == DeletePackageEffect(old(db.State()), actor, id)
  {
    if id !in db.packages {
      return NotFound;
    }
    db.packages := db.packages - {id};
    r := Ok(());
  }
}
