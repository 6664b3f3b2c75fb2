/** The entity schema of the packing app (core/models.py) over an in-memory
    store: one map per table from row id to record, and one counter that hands
    out fresh ids. Foreign keys are plain ids; the nullable ones are Options. */
module Models {
  import opened Common

  type Id = nat
  type UserId = nat
  /** The value of an `auto_now_add` column; the clock is a parameter of every
      operation that inserts a row. */
  type Timestamp = nat

  datatype Category = Category(user: UserId, name: string, createdAt: Timestamp)
  datatype CategoryItem = CategoryItem(category: Id, name: string, createdAt: Timestamp)
  datatype Trip = Trip(user: UserId, name: string, isComplete: bool, createdAt: Timestamp)
  /** `category` is a weak reference (set to null when the category goes);
      `categoryName` is the durable copy taken when the trip was created. */
  datatype TripCategory = TripCategory(trip: Id, category: Option<Id>, categoryName: string)
  datatype TripItem = TripItem(
    trip: Id,
    tripCategory: Option<Id>,
    name: string,
    isPacked: bool,
    isCustom: bool,
    sourceCategory: Option<Id>,
    createdAt: Timestamp)

  /** Column defaults: a new trip is not complete. */
  function NewTrip(user: UserId, name: string, now: Timestamp): Trip {
    Trip(user, name, false, now)
  }

  /** Column defaults: a new trip item is neither packed nor custom. */
  function NewTripItem(trip: Id, tripCategory: Option<Id>, name: string, source: Option<Id>, now: Timestamp): TripItem {
    TripItem(trip, tripCategory, name, false, false, source, now)
  }

  // ---------------------------------------------------------------------
  // Referential integrity

  /** A nullable foreign key is either null or names an existing row. */
  predicate RefersInto(r: Option<Id>, ids: set<Id>) {
    r.Some? ==> r.value in ids
  }

  /** SET_NULL on a weak reference when the row `id` is deleted. */
  function Unlink(r: Option<Id>, id: Id): Option<Id> {
    if r == Some(id) then None else r
  }

  predicate CategoryItemsClosed(items: map<Id, CategoryItem>, categories: set<Id>) {
    forall k :: k in items ==> items[k].category in categories
  }

  predicate TripCategoriesClosed(tcs: map<Id, TripCategory>, trips: set<Id>, categories: set<Id>) {
    forall k :: k in tcs ==> tcs[k].trip in trips && RefersInto(tcs[k].category, categories)
  }

  predicate TripItemsClosed(items: map<Id, TripItem>, trips: set<Id>, tcs: set<Id>, categories: set<Id>) {
    forall k :: k in items ==>
      && items[k].trip in trips
      && RefersInto(items[k].tripCategory, tcs)
      && RefersInto(items[k].sourceCategory, categories)
  }

  /** Ids are handed out from 1, as an auto-increment primary key is, so no
      row has id 0. */
  predicate KeysBelow<V>(m: map<Id, V>, bound: nat) {
    forall k :: k in m ==> 0 < k < bound
  }

  /** Every row of `before` is still in `after`, unchanged. */
  predicate Extends<V(==)>(before: map<Id, V>, after: map<Id, V>) {
    forall k :: k in before ==> k in after && after[k] == before[k]
  }

  // ---------------------------------------------------------------------
  // Queries (the reverse relations `category.items`, `trip.items`, ...)

  function OwnedCategoryIds(categories: map<Id, Category>, user: UserId): set<Id> {
    set k | k in categories && categories[k].user == user
  }

  function OwnedTripIds(trips: map<Id, Trip>, user: UserId): set<Id> {
    set k | k in trips && trips[k].user == user
  }

  function ItemIdsOf(items: map<Id, CategoryItem>, category: Id): set<Id> {
    set k | k in items && items[k].category == category
  }

  function TripItemIds(items: map<Id, TripItem>, trip: Id): set<Id> {
    set k | k in items && items[k].trip == trip
  }

  function PackedItemIds(items: map<Id, TripItem>, trip: Id): set<Id> {
    set k | k in items && items[k].trip == trip && items[k].isPacked
  }

  function CustomItemIds(items: map<Id, TripItem>, trip: Id): set<Id> {
    set k | k in items && items[k].trip == trip && items[k].isCustom
  }

  function TripCategoryIds(tcs: map<Id, TripCategory>, trip: Id): set<Id> {
    set k | k in tcs && tcs[k].trip == trip
  }

  /** True when category `category` holds an item named exactly `name`. */
  predicate HasItemNamed(items: map<Id, CategoryItem>, category: Id, name: string) {
    exists k :: k in items && items[k].category == category && items[k].name == name
  }

  // ---------------------------------------------------------------------
  // Trip.progress

  datatype Progress = Progress(packed: nat, total: nat, percentage: nat)

  /** `n / d` rounded to the nearest integer, ties to the even neighbour
      (Python's `round`), on exact rationals. */
  function RoundHalfEven(n: nat, d: nat): (q: nat)
    requires d > 0
    ensures -(d as int) <= 2 * (n - d * q) <= d
    ensures (2 * (n - d * q) == d || 2 * (n - d * q) == -(d as int)) ==> q % 2 == 0
  {
    var q0 := n / d;
    var r := n % d;
    assert n == d * q0 + r;
    assert d * (q0 + 1) == d * q0 + d;
    if 2 * r < d then q0
    else if 2 * r > d then q0 + 1
    else if q0 % 2 == 0 then q0
    else q0 + 1
  }

  /** A nearest integer to 100·packed/total lies in 0..100 when packed <= total. */
  lemma PercentageBounded(packed: nat, total: nat, q: nat)
    requires 0 < total && packed <= total
    requires 2 * (total * q - 100 * packed) <= total
    ensures q <= 100
  {
    var e := q - 100;
    assert total * q == total * e + 100 * total;
    assert 2 * (total * e) <= total;
  }

  lemma SubsetCard<T>(a: set<T>, b: set<T>)
    requires a <= b
    ensures |a| <= |b|
  {
    if a != {} {
      var x :| x in a;
      SubsetCard(a - {x}, b - {x});
    }
  }

  /** The progress triple of a trip: how many of its items are packed, how
      many it has, and the rounded percentage (0 for a trip with no items). */
  function ProgressOf(items: map<Id, TripItem>, trip: Id): (p: Progress)
    ensures p.total == |TripItemIds(items, trip)|
    ensures p.packed == |PackedItemIds(items, trip)|
    ensures p.packed <= p.total
    ensures p.percentage <= 100
    ensures p.total == 0 ==> p.percentage == 0
    ensures p.total > 0 ==> -(p.total as int) <= 2 * (100 * p.packed - p.total * p.percentage) <= p.total
  {
    var all := TripItemIds(items, trip);
    var packed := PackedItemIds(items, trip);
    SubsetCard(packed, all);
    var total := |all|;
    if total > 0 then
      var q := RoundHalfEven(100 * |packed|, total);
      PercentageBounded(|packed|, total, q);
      Progress(|packed|, total, q)
    else
      Progress(|packed|, total, 0)
  }

  /** When 100·packed/total is a whole number, the percentage is exactly that number. */
  lemma {:induction false} NearestOfExact(n: nat, d: nat, k: nat, q: nat)
    requires d > 0 && n == d * k
    requires -(d as int) <= 2 * (n - d * q) <= d
    ensures q == k
  {
    var e := k - q;
    assert n - d * q == d * e;
    assert -(d as int) <= 2 * (d * e) <= d;
  }

  lemma ProgressOfEmptyTrip(items: map<Id, TripItem>, trip: Id)
    requires TripItemIds(items, trip) == {}
    ensures ProgressOf(items, trip) == Progress(0, 0, 0)
  {
  }

  /** A trip whose every item is packed is at 100%. */
  lemma ProgressAllPacked(items: map<Id, TripItem>, trip: Id)
    requires TripItemIds(items, trip) != {}
    requires forall k :: k in items && items[k].trip == trip ==> items[k].isPacked
    ensures ProgressOf(items, trip).percentage == 100
  {
    var p := ProgressOf(items, trip);
    assert PackedItemIds(items, trip) == TripItemIds(items, trip);
    NearestOfExact(100 * p.packed, p.total, 100, p.percentage);
  }

  /** Four items, two packed: progress is 2 of 4, 50%. */
  lemma ProgressTwoOfFour(trip: Id, tc: Id)
    ensures ProgressOf(map[
      1 := TripItem(trip, Some(tc), "Shirt", false, false, None, 0),
      2 := TripItem(trip, Some(tc), "Pants", false, false, None, 0),
      3 := TripItem(trip, Some(tc), "Socks", true, false, None, 0),
      4 := TripItem(trip, Some(tc), "Hat", true, false, None, 0)], trip) == Progress(2, 4, 50)
  {
    var items := map[
      1 := TripItem(trip, Some(tc), "Shirt", false, false, None, 0),
      2 := TripItem(trip, Some(tc), "Pants", false, false, None, 0),
      3 := TripItem(trip, Some(tc), "Socks", true, false, None, 0),
      4 := TripItem(trip, Some(tc), "Hat", true, false, None, 0)];
    assert TripItemIds(items, trip) == {1, 2, 3, 4};
    assert PackedItemIds(items, trip) == {3, 4};
    var p := ProgressOf(items, trip);
    NearestOfExact(200, 4, 50, p.percentage);
  }

  // ---------------------------------------------------------------------
  // The store

  class Store {
    var categories: map<Id, Category>
    var categoryItems: map<Id, CategoryItem>
    var trips: map<Id, Trip>
    var tripCategories: map<Id, TripCategory>
    var tripItems: map<Id, TripItem>
    /** The next id to hand out; every id in use is below it. */
    var nextId: nat

    /** Every foreign key names an existing row and every id is below the counter. */
    ghost predicate Valid()
      reads this
    {
      && CategoryItemsClosed(categoryItems, categories.Keys)
      && TripCategoriesClosed(tripCategories, trips.Keys, categories.Keys)
      && TripItemsClosed(tripItems, trips.Keys, tripCategories.Keys, categories.Keys)
      && 0 < nextId
      && KeysBelow(categories, nextId)
      && KeysBelow(categoryItems, nextId)
      && KeysBelow(trips, nextId)
      && KeysBelow(tripCategories, nextId)
      && KeysBelow(tripItems, nextId)
    }

    constructor ()
      ensures Valid()
      ensures categories == map[] && categoryItems == map[] && trips == map[]
      ensures tripCategories == map[] && tripItems == map[]
    {
      categories, categoryItems, trips := map[], map[], map[];
      tripCategories, tripItems := map[], map[];
      nextId := 1;
    }

    // --- `Model.objects.create(...)`: insert a row under a fresh id

    method InsertCategory(c: Category) returns (id: Id)
      requires Valid()
      modifies this
      ensures Valid()
      ensures id == old(nextId) && nextId == id + 1 && id !in old(categories)
      ensures categories == old(categories)[id := c]
      ensures categoryItems == old(categoryItems) && trips == old(trips)
      ensures tripCategories == old(tripCategories) && tripItems == old(tripItems)
    {
      id := nextId;
      categories := categories[id := c];
      nextId := nextId + 1;
    }

    method InsertCategoryItem(item: CategoryItem) returns (id: Id)
      requires Valid()
      requires item.category in categories
      modifies this
      ensures Valid()
      ensures id == old(nextId) && nextId == id + 1 && id !in old(categoryItems)
      ensures categoryItems == old(categoryItems)[id := item]
      ensures categories == old(categories) && trips == old(trips)
      ensures tripCategories == old(tripCategories) && tripItems == old(tripItems)
    {
      id := nextId;
      categoryItems := categoryItems[id := item];
      nextId := nextId + 1;
    }

    method InsertTrip(t: Trip) returns (id: Id)
      requires Valid()
      modifies this
      ensures Valid()
      ensures id == old(nextId) && nextId == id + 1 && id !in old(trips)
      ensures trips == old(trips)[id := t]
      ensures categories == old(categories) && categoryItems == old(categoryItems)
      ensures tripCategories == old(tripCategories) && tripItems == old(tripItems)
    {
      id := nextId;
      trips := trips[id := t];
      nextId := nextId + 1;
    }

    method InsertTripCategory(tc: TripCategory) returns (id: Id)
      requires Valid()
      requires tc.trip in trips && RefersInto(tc.category, categories.Keys)
      modifies this
      ensures Valid()
      ensures id == old(nextId) && nextId == id + 1 && id !in old(tripCategories)
      ensures tripCategories == old(tripCategories)[id := tc]
      ensures categories == old(categories) && categoryItems == old(categoryItems)
      ensures trips == old(trips) && tripItems == old(tripItems)
    {
      id := nextId;
      tripCategories := tripCategories[id := tc];
      nextId := nextId + 1;
    }

    method InsertTripItem(item: TripItem) returns (id: Id)
      requires Valid()
      requires item.trip in trips
      requires RefersInto(item.tripCategory, tripCategories.Keys)
      requires RefersInto(item.sourceCategory, categories.Keys)
      modifies this
      ensures Valid()
      ensures id == old(nextId) && nextId == id + 1 && id !in old(tripItems)
      ensures tripItems == old(tripItems)[id := item]
      ensures categories == old(categories) && categoryItems == old(categoryItems)
      ensures trips == old(trips) && tripCategories == old(tripCategories)
    {
      id := nextId;
      tripItems := tripItems[id := item];
      nextId := nextId + 1;
    }

    // --- `instance.save()` on an existing row

    method SaveTrip(id: Id, t: Trip)
      requires Valid() && id in trips
      modifies this
      ensures Valid()
      ensures trips == old(trips)[id := t]
      ensures categories == old(categories) && categoryItems == old(categoryItems)
      ensures tripCategories == old(tripCategories) && tripItems == old(tripItems)
      ensures nextId == old(nextId)
    {
      trips := trips[id := t];
    }

    method SaveTripItem(id: Id, item: TripItem)
      requires Valid() && id in tripItems
      requires item.trip in trips
      requires RefersInto(item.tripCategory, tripCategories.Keys)
      requires RefersInto(item.sourceCategory, categories.Keys)
      modifies this
      ensures Valid()
      ensures tripItems == old(tripItems)[id := item]
      ensures categories == old(categories) && categoryItems == old(categoryItems)
      ensures trips == old(trips) && tripCategories == old(tripCategories)
      ensures nextId == old(nextId)
    {
      tripItems := tripItems[id := item];
    }

    // --- `instance.delete()` with the on_delete rules of the schema

    /** Deleting a category item removes that row alone: no other table
        refers to category items. */
    method DeleteCategoryItem(id: Id)
      requires Valid() && id in categoryItems
      modifies this
      ensures Valid()
      ensures categoryItems == old(categoryItems) - {id}
      ensures categories == old(categories) && trips == old(trips)
      ensures tripCategories == old(tripCategories) && tripItems == old(tripItems)
      ensures nextId == old(nextId)
    {
      categoryItems := categoryItems - {id};
    }

    /** Deleting a trip item removes that row alone: no other table refers
        to trip items. */
    method DeleteTripItem(id: Id)
      requires Valid() && id in tripItems
      modifies this
      ensures Valid()
      ensures tripItems == old(tripItems) - {id}
      ensures categories == old(categories) && categoryItems == old(categoryItems)
      ensures trips == old(trips) && tripCategories == old(tripCategories)
      ensures nextId == old(nextId)
    {
      tripItems := tripItems - {id};
    }

    /** Deleting a category cascades to its items (CASCADE) and only clears the
        weak references to it from trip categories and trip items (SET_NULL);
        trip history, including `categoryName`, survives. */
    method DeleteCategory(id: Id)
      requires Valid() && id in categories
      modifies this
      ensures Valid()
      ensures categories == old(categories) - {id}
      ensures forall k :: k in categoryItems <==> k in old(categoryItems) && old(categoryItems)[k].category != id
      ensures forall k :: k in categoryItems ==> categoryItems[k] == old(categoryItems)[k]
      ensures tripCategories.Keys == old(tripCategories).Keys
      ensures forall k :: k in tripCategories ==>
        tripCategories[k] == old(tripCategories)[k].(category := Unlink(old(tripCategories)[k].category, id))
      ensures tripItems.Keys == old(tripItems).Keys
      ensures forall k :: k in tripItems ==>
        tripItems[k] == old(tripItems)[k].(sourceCategory := Unlink(old(tripItems)[k].sourceCategory, id))
      ensures trips == old(trips) && nextId == old(nextId)
    {
      var items := map k | k in categoryItems && categoryItems[k].category != id :: categoryItems[k];
      assert CategoryItemsClosed(items, categories.Keys - {id});
      var tcs := map k | k in tripCategories :: tripCategories[k].(category := Unlink(tripCategories[k].category, id));
      assert tcs.Keys == tripCategories.Keys;
      assert TripCategoriesClosed(tcs, trips.Keys, categories.Keys - {id});
      var tis := map k | k in tripItems :: tripItems[k].(sourceCategory := Unlink(tripItems[k].sourceCategory, id));
      assert tis.Keys == tripItems.Keys;
      assert TripItemsClosed(tis, trips.Keys, tcs.Keys, categories.Keys - {id});
      categoryItems, tripCategories, tripItems := items, tcs, tis;
      categories := categories - {id};
    }

    /** Deleting a trip category leaves its items in place, with no category. */
    method DeleteTripCategory(id: Id)
      requires Valid() && id in tripCategories
      modifies this
      ensures Valid()
      ensures tripCategories == old(tripCategories) - {id}
      ensures tripItems.Keys == old(tripItems).Keys
      ensures forall k :: k in tripItems ==>
        tripItems[k] == old(tripItems)[k].(tripCategory := Unlink(old(tripItems)[k].tripCategory, id))
      ensures categories == old(categories) && categoryItems == old(categoryItems)
      ensures trips == old(trips) && nextId == old(nextId)
    {
      tripItems := map k | k in tripItems ::
        tripItems[k].(tripCategory := Unlink(tripItems[k].tripCategory, id));
      tripCategories := tripCategories - {id};
    }

    /** Deleting a trip cascades to its trip categories and its items; every
        other trip's rows stay, except that a reference from another trip's
        item to a deleted trip category is cleared. */
    method DeleteTrip(id: Id)
      requires Valid() && id in trips
      modifies this
      ensures Valid()
      ensures trips == old(trips) - {id}
      ensures forall k :: k in tripCategories <==> k in old(tripCategories) && old(tripCategories)[k].trip != id
      ensures forall k :: k in tripCategories ==> tripCategories[k] == old(tripCategories)[k]
      ensures forall k :: k in tripItems <==> k in old(tripItems) && old(tripItems)[k].trip != id
      ensures forall k :: k in tripItems ==>
        tripItems[k] == old(tripItems)[k].(tripCategory :=
          if old(tripItems)[k].tripCategory.Some? && old(tripItems)[k].tripCategory.value !in tripCategories
          then None else old(tripItems)[k].tripCategory)
      ensures categories == old(categories) && categoryItems == old(categoryItems)
      ensures nextId == old(nextId)
    {
      var tcs := map k | k in tripCategories && tripCategories[k].trip != id :: tripCategories[k];
      tripItems := map k | k in tripItems && tripItems[k].trip != id ::
        tripItems[k].(tripCategory :=
          if tripItems[k].tripCategory.Some? && tripItems[k].tripCategory.value !in tcs
          then None else tripItems[k].tripCategory);
      tripCategories := tcs;
      trips := trips - {id};
    }
  }
}
