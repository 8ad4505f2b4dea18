/** The destination routes of backend/routes/destinationRoutes.js: the
    listing with package counts, the detail view with its bookable packages,
    and the admin's create. */
module Destinations {
  import opened Query
  import opened Store

  /** A destination row with `package_count`. */
  datatype DestinationSummary = DestinationSummary(dest: Destination, packageCount: nat)

  /** A destination with its available packages. */
  datatype DestinationDetail = DestinationDetail(dest: Destination, packages: seq<Package>)

  /** The body of `POST /api/destinations`. `popular` is `None` when it is
      omitted or any falsy value. */
  datatype DestinationRequest = DestinationRequest(
    name: string, country: string, description: string, imageUrl: string,
    popular: Option<bool>)

  /** The character codes of a name, compared code by code for `ORDER BY name`. */
  function Codes(s: string): (c: seq<int>)
    ensures |c| == |s|
    ensures forall i :: 0 <= i < |s| ==> c[i] == s[i] as int
  {
    seq(|s|, i requires 0 <= i < |s| => s[i] as int)
  }

  /** `name ASC`: one name sorts no later than the other. */
  predicate NameLeq(a: string, b: string) {
    LexLeq(Codes(a), Codes(b))
  }

  /** `ORDER BY d.popular DESC, d.name ASC` as an ascending key. */
  function DestinationKey(d: Destination): seq<int> {
    [if d.popular then 0 else 1] + Codes(d.name)
  }

  /** The keys of the packages at destination `id`. */
  function PackagesAt(t: Tables, id: Id): set<Id> {
    set k | k in t.packages && t.packages[k].destinationId == id
  }

  /** The keys of the available packages at destination `id`. */
  function BookableAt(t: Tables, id: Id): set<Id> {
    set k | k in t.packages && t.packages[k].destinationId == id && t.packages[k].available
  }

  /** `COUNT(p.package_id)` over `LEFT JOIN packages`: every package of the
      destination, available or not. */
  function PackageCount(t: Tables, d: Destination): (n: nat)
    requires t.Valid()
    ensures n == |PackagesAt(t, d.id)|
  {
    var ofDestination := (p: Package) => p.destinationId == d.id;
    assert KeysWhere(t.packages, ofDestination) == PackagesAt(t, d.id) by {
      forall k ensures k in KeysWhere(t.packages, ofDestination) <==> k in PackagesAt(t, d.id) {
      }
    }
    |Select(t.packages, t.nextPackage, ofDestination)|
  }

  function Summarize(t: Tables, d: Destination): (s: DestinationSummary)
    requires t.Valid()
    ensures s.dest == d
    ensures s.packageCount == |PackagesAt(t, d.id)|
  {
    DestinationSummary(d, PackageCount(t, d))
  }

  /** Every destination row, in listing order. */
  function DestinationsInOrder(t: Tables): (rows: seq<Destination>)
    requires t.Valid()
    ensures forall d :: d in rows ==> d in t.destinations.Values
    ensures forall d :: d in t.destinations.Values ==> d in rows
    ensures |rows| == |t.destinations|
    ensures RowsInListingOrder(rows)
  {
    var everyone := (d: Destination) => true;
    var sorted := SelectSorted(t.destinations, t.nextDestination, everyone, DestinationKey);
    assert KeysWhere(t.destinations, everyone) == t.destinations.Keys by {
      forall k ensures k in KeysWhere(t.destinations, everyone) <==> k in t.destinations.Keys {
      }
    }
    KeyOrderIsListingOrder(sorted);
    sorted
  }

  /** Two keys in order put a popular destination first, and order names
      among destinations equally popular. */
  lemma KeyOrder(a: Destination, b: Destination)
    requires LexLeq(DestinationKey(a), DestinationKey(b))
    ensures a.popular || !b.popular
    ensures a.popular == b.popular ==> NameLeq(a.name, b.name)
  {
    var ka, kb := DestinationKey(a), DestinationKey(b);
    assert ka[1..] == Codes(a.name) && kb[1..] == Codes(b.name);
  }

  /** `ORDER BY d.popular DESC, d.name ASC`: popular destinations come
      first, and destinations equally popular come in name order. */
  predicate RowsInListingOrder(rows: seq<Destination>) {
    && (forall i, j :: 0 <= i < j < |rows| ==> rows[i].popular || !rows[j].popular)
    && (forall i, j :: 0 <= i < j < |rows| && rows[i].popular == rows[j].popular ==>
          NameLeq(rows[i].name, rows[j].name))
  }

  /** The same order on the listing's summaries. */
  predicate InListingOrder(r: seq<DestinationSummary>) {
    && (forall i, j :: 0 <= i < j < |r| ==> r[i].dest.popular || !r[j].dest.popular)
    && (forall i, j :: 0 <= i < j < |r| && r[i].dest.popular == r[j].dest.popular ==>
          NameLeq(r[i].dest.name, r[j].dest.name))
  }

  lemma KeyOrderIsListingOrder(rows: seq<Destination>)
    requires SortedBy(rows, DestinationKey)
    ensures RowsInListingOrder(rows)
  {
    forall i, j | 0 <= i < j < |rows|
      ensures (rows[i].popular || !rows[j].popular)
              && (rows[i].popular == rows[j].popular ==> NameLeq(rows[i].name, rows[j].name))
    {
      KeyOrder(rows[i], rows[j]);
    }
  }

  /** Summarizing every destination row, in listing order, gives the listing. */
  lemma SummariesOfListing(t: Tables, rows: seq<Destination>, r: seq<DestinationSummary>)
    requires t.Valid()
    requires forall d :: d in rows ==> d in t.destinations.Values
    requires forall d :: d in t.destinations.Values ==> d in rows
    requires RowsInListingOrder(rows)
    requires |r| == |rows| && forall i :: 0 <= i < |rows| ==> r[i] == Summarize(t, rows[i])
    ensures forall i :: 0 <= i < |r| ==> r[i].dest in t.destinations.Values && r[i] == Summarize(t, r[i].dest)
    ensures forall d :: d in t.destinations.Values ==> Summarize(t, d) in r
    ensures InListingOrder(r)
  {
    forall i | 0 <= i < |r| ensures r[i].dest in t.destinations.Values && r[i] == Summarize(t, r[i].dest) {
      assert r[i].dest == rows[i] && rows[i] in rows;
    }
    forall d | d in t.destinations.Values ensures Summarize(t, d) in r {
      var i :| 0 <= i < |rows| && rows[i] == d;
      assert r[i] == Summarize(t, d);
    }
    forall i, j | 0 <= i < j < |r|
      ensures (r[i].dest.popular || !r[j].dest.popular)
              && (r[i].dest.popular == r[j].dest.popular ==> NameLeq(r[i].dest.name, r[j].dest.name))
    {
      assert r[i].dest == rows[i] && r[j].dest == rows[j];
    }
  }

  /** `GET /api/destinations`. */
  function ListDestinations(t: Tables): (r: seq<DestinationSummary>)
    requires t.Valid()
    ensures forall i :: 0 <= i < |r| ==> r[i].dest in t.destinations.Values && r[i] == Summarize(t, r[i].dest)
    ensures forall d :: d in t.destinations.Values ==> Summarize(t, d) in r
    ensures |r| == |t.destinations|
    ensures InListingOrder(r)
  {
    var rows := DestinationsInOrder(t);
    var r := Project(rows, (d: Destination) => Summarize(t, d));
    SummariesOfListing(t, rows, r);
    r
  }

  /** `GET /api/destinations/:id`. */
  function GetDestination(t: Tables, id: Id): (r: Outcome<DestinationDetail>)
    requires t.Valid()
    ensures r.NotFound? <==> id !in t.destinations
    ensures r.Ok? || r.NotFound?
    ensures r.Ok? ==>
              && r.value.dest == t.destinations[id]
              && (forall p :: p in r.value.packages ==> p in t.packages.Values && p.destinationId == id && p.available)
              && (forall p :: p in t.packages.Values && p.destinationId == id && p.available ==> p in r.value.packages)
              && |r.value.packages| == |BookableAt(t, id)|
  {
    if id !in t.destinations then NotFound
    else
      var bookable := (p: Package) => p.destinationId == id && p.available;
      assert KeysWhere(t.packages, bookable) == BookableAt(t, id) by {
        forall k ensures k in KeysWhere(t.packages, bookable) <==> k in BookableAt(t, id) {
        }
      }
      Ok(DestinationDetail(t.destinations[id], Select(t.packages, t.nextPackage, bookable)))
  }

  /** The detail view lists at most as many packages as the listing counts. */
  lemma DetailWithinCount(t: Tables, id: Id)
    requires t.Valid() && id in t.destinations
    ensures GetDestination(t, id).Ok?
    ensures |GetDestination(t, id).value.packages| <= Summarize(t, t.destinations[id]).packageCount
  {
    assert t.destinations[id].id == id;
    SubsetCardinality(BookableAt(t, id), PackagesAt(t, id));
  }

  lemma {:induction false} SubsetCardinality(a: set<nat>, b: set<nat>)
    requires a <= b
    ensures |a| <= |b|
    decreases |b|
  {
    if a != {} {
      var x :| x in a;
      SubsetCardinality(a - {x}, b - {x});
    }
  }

  /** `popular || false`: only a truthy flag makes a destination popular. */
  function PopularFlag(popular: Option<bool>): bool {
    popular == Some(true)
  }

  function CreateDestinationEffect(t: Tables, actor: Actor, req: DestinationRequest): (e: Effect<Destination>)
    requires IsAdmin(actor)
    requires t.Valid()
    ensures e.tables.Valid()
    ensures e.response.Ok?
    ensures var d := e.response.value;
            && d.id !in t.destinations
            && e.tables.destinations == t.destinations[d.id := d]
            && d.name == req.name && d.country == req.country
            && d.description == req.description && d.imageUrl == req.imageUrl
            && (d.popular <==> req.popular == Some(true))
            // no other table changes
            && e.tables.(destinations := t.destinations, nextDestination := t.nextDestination) == t
  {
    var d := Destination(t.nextDestination, req.name, req.country, req.description, req.imageUrl,
                         PopularFlag(req.popular));
    Effect(Ok(d), t.(destinations := t.destinations[d.id := d], nextDestination := t.nextDestination + 1))
  }

  method CreateDestination(db: Database, actor: Actor, req: DestinationRequest) returns (r: Outcome<Destination>)
    requires IsAdmin(actor)
    requires db.Valid()
    modifies db
    ensures db.Valid()
    ensures Effect(r, db.State()) == CreateDestinationEffect(old(db.State()), actor, req)
  {
    var d := Destination(db.nextDestination, req.name, req.country, req.description, req.imageUrl,
                         PopularFlag(req.popular));
    db.destinations := db.destinations[d.id := d];
    db.nextDestination := db.nextDestination + 1;
    r := Ok(d);
  }

  /** A destination created and then fetched is the stored row. */
  lemma CreatedDestinationIsFetched(t: Tables, actor: Actor, req: DestinationRequest)
    requires IsAdmin(actor)
    requires t.Valid()
    ensures var e := CreateDestinationEffect(t, actor, req);
            var g := GetDestination(e.tables, e.response.value.id);
            && g.Ok?
            && g.value.dest == e.response.value
  {
  }
}
