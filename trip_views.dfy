/** The page handlers of core/views.py that change or count trips: the
    dashboard counts, trip creation with its snapshot of the selected
    categories, the completion toggle and deletion. Every lookup is scoped to
    the requesting user; a record of someone else's is NotFound. */
module TripViews {
  import opened Common
  import opened Models
  import opened Serializers

  // ---------------------------------------------------------------------
  // dashboard / trip_list

  datatype DashboardStats = DashboardStats(totalTrips: nat, totalCategories: nat, totalActive: nat)

  function ActiveTripIds(trips: map<Id, Trip>, user: UserId): set<Id> {
    set k | k in trips && trips[k].user == user && !trips[k].isComplete
  }

  function CompletedTripIds(trips: map<Id, Trip>, user: UserId): set<Id> {
    set k | k in trips && trips[k].user == user && trips[k].isComplete
  }

  /** The dashboard's counters: the user's trips, the user's categories and the
      user's trips that are not complete; nobody else's rows are counted. */
  function Dashboard(trips: map<Id, Trip>, categories: map<Id, Category>, user: UserId): (s: DashboardStats)
    ensures s.totalTrips == |OwnedTripIds(trips, user)|
    ensures s.totalCategories == |OwnedCategoryIds(categories, user)|
    ensures s.totalActive == |ActiveTripIds(trips, user)|
    ensures s.totalActive <= s.totalTrips
  {
    SubsetCard(ActiveTripIds(trips, user), OwnedTripIds(trips, user));
    DashboardStats(|OwnedTripIds(trips, user)|, |OwnedCategoryIds(categories, user)|, |ActiveTripIds(trips, user)|)
  }

  /** The trip list splits the user's trips into active and completed ones. */
  lemma TripListPartition(trips: map<Id, Trip>, user: UserId)
    ensures ActiveTripIds(trips, user) + CompletedTripIds(trips, user) == OwnedTripIds(trips, user)
    ensures ActiveTripIds(trips, user) !! CompletedTripIds(trips, user)
    ensures |ActiveTripIds(trips, user)| + |CompletedTripIds(trips, user)| == |OwnedTripIds(trips, user)|
  {
  }

  /** Another user's new trip or category leaves the dashboard unchanged. */
  lemma DashboardIgnoresOthers(trips: map<Id, Trip>, categories: map<Id, Category>, user: UserId,
                               k: Id, t: Trip, kc: Id, c: Category)
    requires t.user != user && c.user != user
    ensures Dashboard(trips[k := t], categories[kc := c], user) == Dashboard(trips - {k}, categories - {kc}, user)
  {
    assert OwnedTripIds(trips[k := t], user) == OwnedTripIds(trips - {k}, user);
    assert ActiveTripIds(trips[k := t], user) == ActiveTripIds(trips - {k}, user);
    assert OwnedCategoryIds(categories[kc := c], user) == OwnedCategoryIds(categories - {kc}, user);
  }

  /** One trip and one category for each of two users: the dashboard of the
      first counts one of each. */
  lemma DashboardShowsOwnDataOnly()
    ensures Dashboard(map[1 := Trip(7, "My Trip", false, 0), 2 := Trip(8, "Other Trip", false, 0)],
                      map[3 := Category(7, "My Category", 0), 4 := Category(8, "Other Category", 0)], 7)
            == DashboardStats(1, 1, 1)
  {
    var trips := map[1 := Trip(7, "My Trip", false, 0), 2 := Trip(8, "Other Trip", false, 0)];
    var categories := map[3 := Category(7, "My Category", 0), 4 := Category(8, "Other Category", 0)];
    assert OwnedTripIds(trips, 7) == {1};
    assert ActiveTripIds(trips, 7) == {1};
    assert OwnedCategoryIds(categories, 7) == {3};
  }

  // ---------------------------------------------------------------------
  // trip_create

  /** The template trip: used only when it exists and belongs to the user;
      anything else is silently treated as no template. */
  function TemplateFor(trips: map<Id, Trip>, user: UserId, templateId: Option<Id>): (t: Option<Id>)
    ensures t.Some? <==> templateId.Some? && templateId.value in trips && trips[templateId.value].user == user
    ensures t.Some? ==> t == templateId
  {
    if templateId.Some? && templateId.value in trips && trips[templateId.value].user == user
    then templateId else None
  }

  /** The category items that belong to one of the selected categories. */
  function SelectedItemIds(items: map<Id, CategoryItem>, selected: seq<Id>): set<Id> {
    set k | k in items && items[k].category in selected
  }

  /** The sum of the item counts of the selected categories. */
  function SnapshotCount(items: map<Id, CategoryItem>, selected: seq<Id>): nat {
    if selected == [] then 0
    else SnapshotCount(items, selected[..|selected| - 1]) + |ItemIdsOf(items, selected[|selected| - 1])|
  }

  /** Every target of `copy` is a row of `after` that was not in `before`. */
  ghost predicate NewTargets<V>(copy: map<Id, Id>, before: map<Id, V>, after: map<Id, V>) {
    forall s :: s in copy ==> copy[s] in after && copy[s] !in before
  }

  /** No two sources share a target. */
  ghost predicate Injective(copy: map<Id, Id>) {
    forall s, s' :: s in copy && s' in copy && s != s' ==> copy[s] != copy[s']
  }

  /** `copy` sends each source to its own new row, and the rows added between
      `before` and `after` are exactly its targets. */
  ghost predicate FreshCopies<V>(copy: map<Id, Id>, before: map<Id, V>, after: map<Id, V>) {
    && NewTargets(copy, before, after)
    && Injective(copy)
    && after.Keys - before.Keys == copy.Values
  }

  /** An injective map has as many targets as sources. */
  lemma {:induction false} InjectiveCard(copy: map<Id, Id>)
    requires Injective(copy)
    ensures |copy.Values| == |copy|
  {
    if copy != map[] {
      var s :| s in copy;
      var rest := copy - {s};
      assert Injective(rest);
      InjectiveCard(rest);
      ValuesRemove(copy, s);
      assert copy.Keys == rest.Keys + {s};
    }
  }

  /** Taking one source out of an injective map takes out exactly its target. */
  lemma ValuesRemove(copy: map<Id, Id>, s: Id)
    requires Injective(copy) && s in copy
    ensures copy.Values == (copy - {s}).Values + {copy[s]}
    ensures copy[s] !in (copy - {s}).Values
  {
    var rest := copy - {s};
    forall x | x in copy.Values
      ensures x in rest.Values + {copy[s]}
    {
      var k :| k in copy && copy[k] == x;
      if k != s {
        assert rest[k] == x;
      }
    }
    forall x | x in rest.Values
      ensures x in copy.Values
    {
      var k :| k in rest && rest[k] == x;
      assert copy[k] == x;
    }
    forall k | k in rest
      ensures rest[k] != copy[s]
    {
      assert k != s && rest[k] == copy[k];
    }
  }

  lemma InjectiveStep(copy: map<Id, Id>, s: Id, id: Id)
    requires Injective(copy) && s !in copy && id !in copy.Values
    ensures Injective(copy[s := id])
  {
    forall a | a in copy
      ensures copy[a] != id
    {
      assert copy[a] in copy.Values;
    }
  }

  lemma ValuesStep(copy: map<Id, Id>, s: Id, id: Id)
    requires s !in copy
    ensures copy[s := id].Values == copy.Values + {id}
  {
    var copy' := copy[s := id];
    assert copy'[s] == id;
    forall x | x in copy.Values
      ensures x in copy'.Values
    {
      var k :| k in copy && copy[k] == x;
      assert copy'[k] == x;
    }
    forall x | x in copy'.Values
      ensures x in copy.Values + {id}
    {
      var k :| k in copy' && copy'[k] == x;
      if k != s {
        assert copy[k] == x;
      }
    }
  }

  /** Adding one new row and one new source keeps the copies fresh. */
  lemma FreshStep<V>(before: map<Id, V>, after: map<Id, V>, copy: map<Id, Id>, s: Id, id: Id, v: V)
    requires before.Keys <= after.Keys && FreshCopies(copy, before, after) && s !in copy && id !in after
    ensures FreshCopies(copy[s := id], before, after[id := v])
  {
    InjectiveStep(copy, s, id);
    ValuesStep(copy, s, id);
    assert after[id := v].Keys - before.Keys == (after.Keys - before.Keys) + {id};
  }

  lemma ExtendsStep<V>(before: map<Id, V>, after: map<Id, V>, id: Id, v: V)
    requires Extends(before, after) && id !in after
    ensures Extends(before, after[id := v])
  {
  }

  /** Rows added between `before` and `after` all belong to `trip`. */
  ghost predicate NewRowsOfTrip(before: map<Id, TripItem>, after: map<Id, TripItem>, trip: Id) {
    forall k :: k in after && k !in before ==> after[k].trip == trip
  }

  /** The trip categories added between `before` and `after` are exactly one
      per key of `snapshotOf`, each belonging to `trip` and carrying the name
      its category has in `categories`. */
  ghost predicate CategorySnapshot(before: map<Id, TripCategory>, after: map<Id, TripCategory>,
                                   categories: map<Id, Category>, snapshotOf: map<Id, Id>, trip: Id) {
    && Extends(before, after)
    && FreshCopies(snapshotOf, before, after)
    && forall c :: c in snapshotOf ==>
         c in categories && snapshotOf[c] in after && after[snapshotOf[c]] == TripCategory(trip, Some(c), categories[c].name)
  }

  /** Every trip category a snapshot adds belongs to the snapshot's trip. */
  lemma SnapshotCategoriesOfTrip(before: map<Id, TripCategory>, after: map<Id, TripCategory>,
                                 categories: map<Id, Category>, snapshotOf: map<Id, Id>, trip: Id)
    requires CategorySnapshot(before, after, categories, snapshotOf, trip)
    ensures forall k :: k in after && k !in before ==> after[k].trip == trip
  {
    forall k | k in after && k !in before
      ensures after[k].trip == trip
    {
      assert k in snapshotOf.Values;
      var c :| c in snapshotOf && snapshotOf[c] == k;
    }
  }

  lemma CategorySnapshotStart(tcs: map<Id, TripCategory>, categories: map<Id, Category>, trip: Id)
    ensures CategorySnapshot(tcs, tcs, categories, map[], trip)
  {
  }

  lemma CategorySnapshotStep(before: map<Id, TripCategory>, after: map<Id, TripCategory>, after': map<Id, TripCategory>,
                             categories: map<Id, Category>, snapshotOf: map<Id, Id>, trip: Id, c: Id, tc: Id)
    requires CategorySnapshot(before, after, categories, snapshotOf, trip)
    requires c in categories && c !in snapshotOf && tc !in after
    requires after' == after[tc := TripCategory(trip, Some(c), categories[c].name)]
    ensures CategorySnapshot(before, after', categories, snapshotOf[c := tc], trip)
  {
    FreshStep(before, after, snapshotOf, c, tc, TripCategory(trip, Some(c), categories[c].name));
    ExtendsStep(before, after, tc, TripCategory(trip, Some(c), categories[c].name));
  }

  /** Each key of `copy` is a category item whose category has a trip category
      in `snapshotOf`, and its target in `after` is the snapshot of it: an
      unpacked, non-custom item of `trip` under that trip category, named like
      the category item and sourced from its category. */
  ghost predicate ItemRows(after: map<Id, TripItem>, items: map<Id, CategoryItem>, snapshotOf: map<Id, Id>,
                           copy: map<Id, Id>, trip: Id, now: Timestamp) {
    forall ci :: ci in copy ==>
      && ci in items && items[ci].category in snapshotOf && copy[ci] in after
      && after[copy[ci]] == NewTripItem(trip, Some(snapshotOf[items[ci].category]), items[ci].name, Some(items[ci].category), now)
  }

  /** `after` extends `before` with exactly the snapshot rows of `copy`. */
  ghost predicate ItemSnapshot(before: map<Id, TripItem>, after: map<Id, TripItem>, items: map<Id, CategoryItem>,
                               snapshotOf: map<Id, Id>, copy: map<Id, Id>, trip: Id, now: Timestamp) {
    && Extends(before, after)
    && NewRowsOfTrip(before, after, trip)
    && FreshCopies(copy, before, after)
    && ItemRows(after, items, snapshotOf, copy, trip, now)
  }

  lemma ItemSnapshotStart(tripItems: map<Id, TripItem>, items: map<Id, CategoryItem>, snapshotOf: map<Id, Id>, trip: Id, now: Timestamp)
    ensures ItemSnapshot(tripItems, tripItems, items, snapshotOf, map[], trip, now)
  {
  }

  lemma ItemRowsStep(after: map<Id, TripItem>, items: map<Id, CategoryItem>, category: Id, tc: Id,
                     copy: map<Id, Id>, trip: Id, now: Timestamp, ci: Id, id: Id)
    requires ItemRows(after, items, map[category := tc], copy, trip, now)
    requires ci in items && items[ci].category == category && id !in after
    ensures ItemRows(after[id := NewTripItem(trip, Some(tc), items[ci].name, Some(category), now)],
                     items, map[category := tc], copy[ci := id], trip, now)
  {
  }

  lemma ItemSnapshotStep(before: map<Id, TripItem>, after: map<Id, TripItem>, after': map<Id, TripItem>,
                         items: map<Id, CategoryItem>, category: Id, tc: Id,
                         copy: map<Id, Id>, trip: Id, now: Timestamp, ci: Id, id: Id)
    requires ItemSnapshot(before, after, items, map[category := tc], copy, trip, now)
    requires ci in items && items[ci].category == category && ci !in copy && id !in after
    requires after' == after[id := NewTripItem(trip, Some(tc), items[ci].name, Some(category), now)]
    ensures ItemSnapshot(before, after', items, map[category := tc], copy[ci := id], trip, now)
  {
    var v := NewTripItem(trip, Some(tc), items[ci].name, Some(category), now);
    FreshStep(before, after, copy, ci, id, v);
    ExtendsStep(before, after, id, v);
    ItemRowsStep(after, items, category, tc, copy, trip, now, ci, id);
  }

  /** Two maps with disjoint sources and disjoint targets, each injective,
      join into an injective map whose targets are those of both. */
  lemma JoinCopies(first: map<Id, Id>, second: map<Id, Id>)
    requires first.Keys !! second.Keys && first.Values !! second.Values
    requires Injective(first) && Injective(second)
    ensures Injective(first + second)
    ensures (first + second).Values == first.Values + second.Values
  {
    var all := first + second;
    forall a, b | a in all && b in all && a != b
      ensures all[a] != all[b]
    {
      if a in first && b in second {
        assert first[a] in first.Values && second[b] in second.Values;
      } else if a in second && b in first {
        assert first[b] in first.Values && second[a] in second.Values;
      }
    }
    forall x | x in all.Values
      ensures x in first.Values + second.Values
    {
      var k :| k in all && all[k] == x;
      if k in first {
        assert first[k] == x;
      } else {
        assert second[k] == x;
      }
    }
    forall x | x in first.Values + second.Values
      ensures x in all.Values
    {
      if x in first.Values {
        var k :| k in first && first[k] == x;
        assert all[k] == x;
      } else {
        var k :| k in second && second[k] == x;
        assert all[k] == x;
      }
    }
  }

  /** Fresh copies from `base` to `mid` followed by fresh copies from `mid` to
      `after` are fresh copies from `base` to `after`. */
  lemma FreshJoin<V>(base: map<Id, V>, mid: map<Id, V>, after: map<Id, V>, first: map<Id, Id>, second: map<Id, Id>)
    requires base.Keys <= mid.Keys <= after.Keys
    requires FreshCopies(first, base, mid) && FreshCopies(second, mid, after)
    requires first.Keys !! second.Keys
    ensures first.Values !! second.Values
    ensures FreshCopies(first + second, base, after)
  {
    assert after.Keys - base.Keys == (after.Keys - mid.Keys) + (mid.Keys - base.Keys);
    JoinCopies(first, second);
  }

  lemma ItemRowsJoin(mid: map<Id, TripItem>, after: map<Id, TripItem>, items: map<Id, CategoryItem>,
                     snapshotOf: map<Id, Id>, copy: map<Id, Id>, c: Id, tc: Id, more: map<Id, Id>, trip: Id, now: Timestamp)
    requires Extends(mid, after)
    requires ItemRows(mid, items, snapshotOf, copy, trip, now)
    requires ItemRows(after, items, map[c := tc], more, trip, now)
    requires c !in snapshotOf
    ensures copy.Keys !! more.Keys
    ensures ItemRows(after, items, snapshotOf[c := tc], copy + more, trip, now)
  {
    forall ci | ci in more
      ensures ci !in copy
    {
      assert items[ci].category == c;
    }
  }

  /** The snapshot of the selected categories so far, followed by the snapshot
      of one more category, is a snapshot of all of them. */
  lemma ItemSnapshotJoin(base: map<Id, TripItem>, mid: map<Id, TripItem>, after: map<Id, TripItem>,
                         items: map<Id, CategoryItem>, snapshotOf: map<Id, Id>, copy: map<Id, Id>,
                         c: Id, tc: Id, more: map<Id, Id>, trip: Id, now: Timestamp)
    requires ItemSnapshot(base, mid, items, snapshotOf, copy, trip, now)
    requires ItemSnapshot(mid, after, items, map[c := tc], more, trip, now)
    requires c !in snapshotOf
    ensures copy.Keys !! more.Keys
    ensures ItemSnapshot(base, after, items, snapshotOf[c := tc], copy + more, trip, now)
  {
    ItemRowsJoin(mid, after, items, snapshotOf, copy, c, tc, more, trip, now);
    FreshJoin(base, mid, after, copy, more);
  }

  /** The selected categories one longer: their items gain the items of the
      new category, and the snapshot count grows by their number. */
  lemma SelectedStep(items: map<Id, CategoryItem>, selected: seq<Id>, i: nat)
    requires i < |selected|
    ensures SelectedItemIds(items, selected[..i + 1]) == SelectedItemIds(items, selected[..i]) + ItemIdsOf(items, selected[i])
    ensures Elements(selected[..i + 1]) == Elements(selected[..i]) + {selected[i]}
  {
    assert selected[..i + 1] == selected[..i] + [selected[i]];
    assert selected[..i + 1][..i] == selected[..i];
  }

  /** The custom items of the template copied onto `trip`: a row of the trip
      with no trip category, named, sourced like and marked custom like its
      original. */
  ghost predicate CustomRows(before: map<Id, TripItem>, after: map<Id, TripItem>, copy: map<Id, Id>, trip: Id, now: Timestamp) {
    forall s :: s in copy ==>
      && s in before && copy[s] in after
      && after[copy[s]] == TripItem(trip, None, before[s].name, false, true, before[s].sourceCategory, now)
  }

  /** `after` extends `before` with exactly the custom copies of `copy`. */
  ghost predicate CustomCopies(before: map<Id, TripItem>, after: map<Id, TripItem>, copy: map<Id, Id>, trip: Id, now: Timestamp) {
    && Extends(before, after)
    && NewRowsOfTrip(before, after, trip)
    && FreshCopies(copy, before, after)
    && CustomRows(before, after, copy, trip, now)
  }

  lemma CustomCopiesStart(tripItems: map<Id, TripItem>, trip: Id, now: Timestamp)
    ensures CustomCopies(tripItems, tripItems, map[], trip, now)
  {
  }

  lemma CustomStep(before: map<Id, TripItem>, after: map<Id, TripItem>, after': map<Id, TripItem>,
                   copy: map<Id, Id>, trip: Id, now: Timestamp, s: Id, id: Id)
    requires CustomCopies(before, after, copy, trip, now)
    requires s in before && s !in copy && id !in after
    requires after' == after[id := TripItem(trip, None, before[s].name, false, true, before[s].sourceCategory, now)]
    ensures CustomCopies(before, after', copy[s := id], trip, now)
  {
    var v := TripItem(trip, None, before[s].name, false, true, before[s].sourceCategory, now);
    FreshStep(before, after, copy, s, id, v);
    ExtendsStep(before, after, id, v);
  }

  /** The inner loop of the snapshot: one unpacked, non-custom trip item per
      item of `category`, filed under the trip category `tc`. */
  method SnapshotItems(db: Store, trip: Id, tc: Id, category: Id, now: Timestamp) returns (ghost copy: map<Id, Id>)
    requires db.Valid()
    requires trip in db.trips && tc in db.tripCategories && category in db.categories
    modifies db
    ensures db.Valid()
    ensures db.categories == old(db.categories) && db.categoryItems == old(db.categoryItems)
    ensures db.trips == old(db.trips) && db.tripCategories == old(db.tripCategories)
    ensures copy.Keys == ItemIdsOf(db.categoryItems, category)
    ensures ItemSnapshot(old(db.tripItems), db.tripItems, db.categoryItems, map[category := tc], copy, trip, now)
  {
    ghost var base, items := db.tripItems, db.categoryItems;
    var remaining := ItemIdsOf(db.categoryItems, category);
    copy := map[];
    ItemSnapshotStart(base, items, map[category := tc], trip, now);
    while remaining != {}
      invariant db.Valid()
      invariant db.categories == old(db.categories) && db.categoryItems == items
      invariant db.trips == old(db.trips) && db.tripCategories == old(db.tripCategories)
      invariant remaining <= ItemIdsOf(items, category)
      invariant copy.Keys == ItemIdsOf(items, category) - remaining
      invariant ItemSnapshot(base, db.tripItems, items, map[category := tc], copy, trip, now)
      decreases remaining
    {
      var ci :| ci in remaining;
      ghost var pre := db.tripItems;
      var id := db.InsertTripItem(NewTripItem(trip, Some(tc), db.categoryItems[ci].name, Some(category), now));
      ItemSnapshotStep(base, pre, db.tripItems, items, category, tc, copy, trip, now, ci, id);
      copy := copy[ci := id];
      remaining := remaining - {ci};
    }
  }

  /** The template's custom items, copied onto `trip` as custom items with no
      trip category and the same source category. */
  method CopyCustomItems(db: Store, trip: Id, template: Id, now: Timestamp) returns (ghost copy: map<Id, Id>)
    requires db.Valid()
    requires trip in db.trips
    modifies db
    ensures db.Valid()
    ensures db.categories == old(db.categories) && db.categoryItems == old(db.categoryItems)
    ensures db.trips == old(db.trips) && db.tripCategories == old(db.tripCategories)
    ensures copy.Keys == CustomItemIds(old(db.tripItems), template)
    ensures CustomCopies(old(db.tripItems), db.tripItems, copy, trip, now)
  {
    ghost var base := db.tripItems;
    var customs := CustomItemIds(db.tripItems, template);
    var remaining := customs;
    copy := map[];
    CustomCopiesStart(base, trip, now);
    while remaining != {}
      invariant db.Valid()
      invariant db.categories == old(db.categories) && db.categoryItems == old(db.categoryItems)
      invariant db.trips == old(db.trips) && db.tripCategories == old(db.tripCategories)
      invariant remaining <= customs
      invariant copy.Keys == customs - remaining
      invariant CustomCopies(base, db.tripItems, copy, trip, now)
      decreases remaining
    {
      var s :| s in remaining;
      var item := db.tripItems[s];
      ghost var pre := db.tripItems;
      var id := db.InsertTripItem(TripItem(trip, None, item.name, false, true, item.sourceCategory, now));
      CustomStep(base, pre, db.tripItems, copy, trip, now, s, id);
      copy := copy[s := id];
      remaining := remaining - {s};
    }
  }

  /** For distinct categories, the items of the selected categories number
      the sum of the items of each. */
  lemma {:induction false} SelectedCount(items: map<Id, CategoryItem>, selected: seq<Id>)
    requires Distinct(selected)
    ensures |SelectedItemIds(items, selected)| == SnapshotCount(items, selected)
  {
    if selected != [] {
      var init, last := selected[..|selected| - 1], selected[|selected| - 1];
      SelectedCount(items, init);
      assert selected == init + [last];
      assert last !in init by {
        forall k | 0 <= k < |init|
          ensures init[k] != last
        {
          assert init[k] == selected[k];
        }
      }
      assert SelectedItemIds(items, selected) == SelectedItemIds(items, init) + ItemIdsOf(items, last);
      assert SelectedItemIds(items, init) !! ItemIdsOf(items, last);
    }
  }

  /** Two rounds of fresh copies, one after the other: the rows added in all
      are the targets of both, no row is a target of both, and there are as
      many rows as sources. */
  lemma TwoRoundsCount(base: set<Id>, mid: set<Id>, after: set<Id>, first: map<Id, Id>, second: map<Id, Id>)
    requires base <= mid <= after
    requires mid - base == first.Values && after - mid == second.Values
    requires Injective(first) && Injective(second)
    ensures after - base == first.Values + second.Values
    ensures first.Values !! second.Values
    ensures |after - base| == |first| + |second|
  {
    assert after - base == (after - mid) + (mid - base);
    InjectiveCard(first);
    InjectiveCard(second);
  }

  /** When no row of `base` belongs to `trip` and every row added since does,
      the rows of `trip` are exactly the added ones. */
  lemma NewTripRows(base: map<Id, TripItem>, mid: map<Id, TripItem>, after: map<Id, TripItem>, trip: Id)
    requires forall k :: k in base ==> base[k].trip != trip
    requires Extends(base, mid) && Extends(mid, after)
    requires NewRowsOfTrip(base, mid, trip) && NewRowsOfTrip(mid, after, trip)
    ensures TripItemIds(after, trip) == after.Keys - base.Keys
  {
  }

  /** Rows of a snapshot stay in place when more rows are added. */
  lemma ItemRowsExtend(after: map<Id, TripItem>, after': map<Id, TripItem>, items: map<Id, CategoryItem>,
                       snapshotOf: map<Id, Id>, copy: map<Id, Id>, trip: Id, now: Timestamp)
    requires Extends(after, after') && ItemRows(after, items, snapshotOf, copy, trip, now)
    ensures ItemRows(after', items, snapshotOf, copy, trip, now)
  {
  }

  /** Custom copies read their originals from an extension of `base` that
      agrees with it on every original. */
  lemma CustomRowsRebase(base: map<Id, TripItem>, mid: map<Id, TripItem>, after: map<Id, TripItem>,
                         copy: map<Id, Id>, trip: Id, now: Timestamp)
    requires Extends(base, mid) && copy.Keys <= base.Keys && CustomRows(mid, after, copy, trip, now)
    ensures CustomRows(base, after, copy, trip, now)
  {
  }

  /** One pass of the outer loop of the snapshot: the trip category for
      `category`, carrying its current name, and one trip item per item of it. */
  method SnapshotCategory(db: Store, trip: Id, category: Id, now: Timestamp) returns (tc: Id, ghost copy: map<Id, Id>)
    requires db.Valid()
    requires trip in db.trips && category in db.categories
    modifies db
    ensures db.Valid()
    ensures db.categories == old(db.categories) && db.categoryItems == old(db.categoryItems) && db.trips == old(db.trips)
    ensures tc !in old(db.tripCategories)
    ensures db.tripCategories == old(db.tripCategories)[tc := TripCategory(trip, Some(category), old(db.categories)[category].name)]
    ensures copy.Keys == ItemIdsOf(db.categoryItems, category)
    ensures ItemSnapshot(old(db.tripItems), db.tripItems, db.categoryItems, map[category := tc], copy, trip, now)
  {
    tc := db.InsertTripCategory(TripCategory(trip, Some(category), db.categories[category].name));
    copy := SnapshotItems(db, trip, tc, category, now);
  }

  /** The loop of trip_create over the selected categories. */
  method SnapshotCategories(db: Store, trip: Id, selected: seq<Id>, now: Timestamp)
    returns (ghost snapshotOf: map<Id, Id>, ghost itemCopy: map<Id, Id>)
    requires db.Valid()
    requires trip in db.trips
    requires forall i :: 0 <= i < |selected| ==> selected[i] in db.categories
    requires Distinct(selected)
    modifies db
    ensures db.Valid()
    ensures db.categories == old(db.categories) && db.categoryItems == old(db.categoryItems) && db.trips == old(db.trips)
    ensures snapshotOf.Keys == Elements(selected)
    ensures CategorySnapshot(old(db.tripCategories), db.tripCategories, old(db.categories), snapshotOf, trip)
    ensures itemCopy.Keys == SelectedItemIds(old(db.categoryItems), selected)
    ensures ItemSnapshot(old(db.tripItems), db.tripItems, old(db.categoryItems), snapshotOf, itemCopy, trip, now)
  {
    ghost var baseTCs, baseItems, categories, items := db.tripCategories, db.tripItems, db.categories, db.categoryItems;
    snapshotOf, itemCopy := map[], map[];
    CategorySnapshotStart(baseTCs, categories, trip);
    ItemSnapshotStart(baseItems, items, map[], trip, now);
    var i := 0;
    while i < |selected|
      invariant 0 <= i <= |selected|
      invariant db.Valid()
      invariant db.categories == categories && db.categoryItems == items && db.trips == old(db.trips)
      invariant snapshotOf.Keys == Elements(selected[..i])
      invariant CategorySnapshot(baseTCs, db.tripCategories, categories, snapshotOf, trip)
      invariant itemCopy.Keys == SelectedItemIds(items, selected[..i])
      invariant ItemSnapshot(baseItems, db.tripItems, items, snapshotOf, itemCopy, trip, now)
    {
      var c := selected[i];
      assert c !in Elements(selected[..i]) by {
        forall k | 0 <= k < i
          ensures selected[..i][k] != c
        {
          assert selected[..i][k] == selected[k];
        }
      }
      ghost var tcs, mid := db.tripCategories, db.tripItems;
      var tc, copy := SnapshotCategory(db, trip, c, now);
      CategorySnapshotStep(baseTCs, tcs, db.tripCategories, categories, snapshotOf, trip, c, tc);
      ItemSnapshotJoin(baseItems, mid, db.tripItems, items, snapshotOf, itemCopy, c, tc, copy, trip, now);
      SelectedStep(items, selected, i);
      snapshotOf := snapshotOf[c := tc];
      itemCopy := itemCopy + copy;
      i := i + 1;
    }
    assert selected[..i] == selected;
  }

  /** Creates a trip for `user` and snapshots the selected categories into it:
      one trip category per selected category carrying that category's current
      name, one trip item per item of the category, and, when the template is
      one of the user's trips, one custom item per custom item of the template.
      Rows that existed before are left as they were. `selected` is what the
      trip form offers: distinct categories of the user's. */
  method TripCreate(db: Store, user: UserId, name: string, selected: seq<Id>, templateId: Option<Id>, now: Timestamp)
    returns (trip: Id, itemCount: nat, ghost snapshotOf: map<Id, Id>, ghost itemCopy: map<Id, Id>, ghost customCopy: map<Id, Id>)
    requires db.Valid()
    requires forall i :: 0 <= i < |selected| ==> selected[i] in db.categories && db.categories[selected[i]].user == user
    requires Distinct(selected)
    modifies db
    ensures db.Valid()
    ensures trip !in old(db.trips) && db.trips == old(db.trips)[trip := NewTrip(user, name, now)]
    ensures db.categories == old(db.categories) && db.categoryItems == old(db.categoryItems)
    // one trip category per selected category
    ensures snapshotOf.Keys == Elements(selected)
    ensures CategorySnapshot(old(db.tripCategories), db.tripCategories, old(db.categories), snapshotOf, trip)
    ensures |db.tripCategories.Keys - old(db.tripCategories).Keys| == |selected|
    // one trip item per item of each selected category
    ensures itemCopy.Keys == SelectedItemIds(old(db.categoryItems), selected)
    ensures ItemRows(db.tripItems, old(db.categoryItems), snapshotOf, itemCopy, trip, now)
    ensures |itemCopy| == SnapshotCount(old(db.categoryItems), selected)
    // one custom item per custom item of an owned template
    ensures customCopy.Keys == match TemplateFor(old(db.trips), user, templateId)
                               case Some(t) => CustomItemIds(old(db.tripItems), t)
                               case None => {}
    ensures CustomRows(old(db.tripItems), db.tripItems, customCopy, trip, now)
    // and nothing else
    ensures Extends(old(db.tripItems), db.tripItems)
    ensures TripItemIds(db.tripItems, trip) == db.tripItems.Keys - old(db.tripItems).Keys == itemCopy.Values + customCopy.Values
    ensures itemCopy.Values !! customCopy.Values
    ensures itemCount == |TripItemIds(db.tripItems, trip)| == SnapshotCount(old(db.categoryItems), selected) + |customCopy|
  {
    ghost var baseItems, items := db.tripItems, db.categoryItems;
    var template := TemplateFor(db.trips, user, templateId);
    trip := db.InsertTrip(NewTrip(user, name, now));
    snapshotOf, itemCopy := SnapshotCategories(db, trip, selected, now);
    SelectedCount(items, selected);
    ghost var mid := db.tripItems;
    TemplateUnaffected(baseItems, mid, trip, template);
    customCopy := CopyTemplate(db, trip, template, now);
    TripRowsJoin(baseItems, mid, db.tripItems, items, snapshotOf, itemCopy, customCopy, trip, now);
    InjectiveCard(snapshotOf);
    DistinctCard(selected);
    itemCount := |TripItemIds(db.tripItems, trip)|;
  }

  /** What the page shows for a refused trip form: the form again, with its
      field errors; no row is written. */
  const FormRefused := "The trip form has errors."

  /** `trip_create` on POST. `TripForm` strips the name and needs 1 to 200
      characters of it, and accepts as categories only ids among the user's
      own (an id of someone else's category is an invalid choice, which
      refuses the whole form). The chosen categories are taken once each;
      a valid form then creates the trip as `TripCreate` does. */
  method TripCreatePost(db: Store, user: UserId, name: string, chosen: seq<Id>, templateId: Option<Id>, now: Timestamp)
    returns (r: Result<Id>, itemCount: nat, ghost snapshotOf: map<Id, Id>, ghost itemCopy: map<Id, Id>, ghost customCopy: map<Id, Id>)
    requires db.Valid()
    modifies db
    ensures db.Valid()
    ensures r.Invalid? <==>
      || ValidateCharField(Str(name), TripNameLength).Invalid?
      || exists i :: 0 <= i < |chosen| && !(chosen[i] in old(db.categories) && old(db.categories)[chosen[i]].user == user)
    ensures !r.NotFound?
    ensures r.Invalid? ==> unchanged(db)
    ensures r.Ok? ==> r.value !in old(db.trips) && db.trips == old(db.trips)[r.value := NewTrip(user, Trim(name), now)]
    // one trip category per distinct chosen category
    ensures r.Ok? ==> snapshotOf.Keys == Elements(chosen)
    ensures r.Ok? ==> CategorySnapshot(old(db.tripCategories), db.tripCategories, old(db.categories), snapshotOf, r.value)
    ensures r.Ok? ==> |db.tripCategories.Keys - old(db.tripCategories).Keys| == |Elements(chosen)|
    // one trip item per item of each of them
    ensures r.Ok? ==> itemCopy.Keys == SelectedItemIds(old(db.categoryItems), Dedup(chosen))
    ensures r.Ok? ==> ItemRows(db.tripItems, old(db.categoryItems), snapshotOf, itemCopy, r.value, now)
    // one custom item per custom item of an owned template
    ensures r.Ok? ==> customCopy.Keys == match TemplateFor(old(db.trips), user, templateId)
                                         case Some(t) => CustomItemIds(old(db.tripItems), t)
                                         case None => {}
    ensures r.Ok? ==> CustomRows(old(db.tripItems), db.tripItems, customCopy, r.value, now)
    // and nothing else
    ensures r.Ok? ==> Extends(old(db.tripItems), db.tripItems)
    ensures r.Ok? ==> TripItemIds(db.tripItems, r.value) == db.tripItems.Keys - old(db.tripItems).Keys
                                                       == itemCopy.Values + customCopy.Values
    ensures r.Ok? ==> itemCount == |TripItemIds(db.tripItems, r.value)| == SnapshotCount(old(db.categoryItems), Dedup(chosen)) + |customCopy|
    ensures db.categories == old(db.categories) && db.categoryItems == old(db.categoryItems)
  {
    var cleaned := ValidateCharField(Str(name), TripNameLength);
    if cleaned.Invalid? {
      return Invalid(FormRefused), 0, map[], map[], map[];
    }
    if exists i :: 0 <= i < |chosen| && !(chosen[i] in db.categories && db.categories[chosen[i]].user == user) {
      return Invalid(FormRefused), 0, map[], map[], map[];
    }
    var selected := Dedup(chosen);
    DistinctCard(selected);
    forall i | 0 <= i < |selected|
      ensures selected[i] in db.categories && db.categories[selected[i]].user == user
    {
      assert selected[i] in Elements(chosen);
    }
    var trip: Id;
    trip, itemCount, snapshotOf, itemCopy, customCopy := TripCreate(db, user, cleaned.value, selected, templateId, now);
    r := Ok(trip);
  }

  /** The snapshot rows are all rows of the new trip, so another trip used as
      the template has the same custom items before and after them. */
  lemma TemplateUnaffected(base: map<Id, TripItem>, mid: map<Id, TripItem>, trip: Id, template: Option<Id>)
    requires Extends(base, mid) && NewRowsOfTrip(base, mid, trip)
    requires template.Some? ==> template.value != trip
    ensures template.Some? ==> CustomItemIds(mid, template.value) == CustomItemIds(base, template.value)
  {
  }

  /** The template step of trip_create: the custom items of the template, if
      there is one, copied onto `trip`. */
  method CopyTemplate(db: Store, trip: Id, template: Option<Id>, now: Timestamp) returns (ghost copy: map<Id, Id>)
    requires db.Valid()
    requires trip in db.trips
    modifies db
    ensures db.Valid()
    ensures db.categories == old(db.categories) && db.categoryItems == old(db.categoryItems)
    ensures db.trips == old(db.trips) && db.tripCategories == old(db.tripCategories)
    ensures copy.Keys == match template
                         case Some(t) => CustomItemIds(old(db.tripItems), t)
                         case None => {}
    ensures CustomCopies(old(db.tripItems), db.tripItems, copy, trip, now)
  {
    if template.Some? {
      copy := CopyCustomItems(db, trip, template.value, now);
    } else {
      copy := map[];
      CustomCopiesStart(db.tripItems, trip, now);
    }
  }

  /** The rows of a new trip after the snapshot and the template copy: the
      snapshot rows stay in place, the custom copies read their originals
      from before the trip was made, and the rows of the trip are exactly
      the targets of the two rounds, as many as their sources. */
  lemma TripRowsJoin(base: map<Id, TripItem>, mid: map<Id, TripItem>, after: map<Id, TripItem>,
                     items: map<Id, CategoryItem>, snapshotOf: map<Id, Id>, itemCopy: map<Id, Id>,
                     customCopy: map<Id, Id>, trip: Id, now: Timestamp)
    requires forall k :: k in base ==> base[k].trip != trip
    requires ItemSnapshot(base, mid, items, snapshotOf, itemCopy, trip, now)
    requires CustomCopies(mid, after, customCopy, trip, now)
    requires customCopy.Keys <= base.Keys
    ensures ItemRows(after, items, snapshotOf, itemCopy, trip, now)
    ensures CustomRows(base, after, customCopy, trip, now)
    ensures Extends(base, after)
    ensures TripItemIds(after, trip) == after.Keys - base.Keys == itemCopy.Values + customCopy.Values
    ensures itemCopy.Values !! customCopy.Values
    ensures |TripItemIds(after, trip)| == |itemCopy| + |customCopy|
  {
    ItemRowsExtend(mid, after, items, snapshotOf, itemCopy, trip, now);
    CustomRowsRebase(base, mid, after, customCopy, trip, now);
    TwoRoundsCount(base.Keys, mid.Keys, after.Keys, itemCopy, customCopy);
    NewTripRows(base, mid, after, trip);
  }

  // ---------------------------------------------------------------------
  // trip_complete / trip_delete

  /** On POST, flips the completion flag of one of the user's trips; any other
      request method changes nothing. */
  method TripComplete(db: Store, user: UserId, pk: Id, isPost: bool) returns (r: Result<()>)
    requires db.Valid()
    modifies db
    ensures db.Valid()
    ensures r == if pk in old(db.trips) && old(db.trips)[pk].user == user then Ok(()) else NotFound
    ensures r.Ok? && isPost ==>
      db.trips == old(db.trips)[pk := old(db.trips)[pk].(isComplete := !old(db.trips)[pk].isComplete)]
    ensures !(r.Ok? && isPost) ==> db.trips == old(db.trips)
    ensures db.categories == old(db.categories) && db.categoryItems == old(db.categoryItems)
    ensures db.tripCategories == old(db.tripCategories) && db.tripItems == old(db.tripItems)
  {
    if !(pk in db.trips && db.trips[pk].user == user) {
      return NotFound;
    }
    if isPost {
      var t := db.trips[pk];
      db.SaveTrip(pk, t.(isComplete := !t.isComplete));
    }
    r := Ok(());
  }

  /** Two completion toggles in a row restore the trip as it was. */
  method TripCompleteTwice(db: Store, user: UserId, pk: Id)
    requires db.Valid()
    modifies db
    ensures db.Valid()
    ensures db.trips == old(db.trips)
  {
    var r1 := TripComplete(db, user, pk, true);
    var r2 := TripComplete(db, user, pk, true);
  }

  /** On POST, deletes one of the user's trips with its trip categories and
      items; other trips keep their rows, except that an item's link to a
      deleted trip category is cleared. Any other request method changes nothing. */
  method TripDelete(db: Store, user: UserId, pk: Id, isPost: bool) returns (r: Result<()>)
    requires db.Valid()
    modifies db
    ensures db.Valid()
    ensures r == if pk in old(db.trips) && old(db.trips)[pk].user == user then Ok(()) else NotFound
    ensures r.Ok? && isPost ==>
      && db.trips == old(db.trips) - {pk}
      && TripCategoryIds(db.tripCategories, pk) == {} && TripItemIds(db.tripItems, pk) == {}
      && (forall t :: t != pk ==> TripCategoryIds(db.tripCategories, t) == TripCategoryIds(old(db.tripCategories), t))
      && (forall t :: t != pk ==> TripItemIds(db.tripItems, t) == TripItemIds(old(db.tripItems), t))
      && (forall k :: k in db.tripCategories <==> k in old(db.tripCategories) && old(db.tripCategories)[k].trip != pk)
      && (forall k :: k in db.tripCategories ==> db.tripCategories[k] == old(db.tripCategories)[k])
      && (forall k :: k in db.tripItems <==> k in old(db.tripItems) && old(db.tripItems)[k].trip != pk)
      && (forall k :: k in db.tripItems ==>
            db.tripItems[k] == old(db.tripItems)[k].(tripCategory :=
              if old(db.tripItems)[k].tripCategory.Some? && old(db.tripItems)[k].tripCategory.value !in db.tripCategories
              then None else old(db.tripItems)[k].tripCategory))
    ensures !(r.Ok? && isPost) ==>
      && db.trips == old(db.trips) && db.tripCategories == old(db.tripCategories) && db.tripItems == old(db.tripItems)
    ensures db.categories == old(db.categories) && db.categoryItems == old(db.categoryItems)
  {
    if !(pk in db.trips && db.trips[pk].user == user) {
      return NotFound;
    }
    if isPost {
      db.DeleteTrip(pk);
    }
    r := Ok(());
  }
}
