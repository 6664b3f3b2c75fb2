/** The REST views of core/api/views.py: the owner-scoped querysets, the two
    `perform_create` hooks, the trip-item update, the promotion of a trip
    item into a category, and the bulk import. */
module ApiViews {
  import opened Common
  import opened Models
  import opened Serializers
  import opened ImportGrouping

  // ---------------------------------------------------------------------
  // Names in the store

  /** The ids of `user`'s categories called `name`. */
  function NamedCategories(categories: map<Id, Category>, user: UserId, name: string): set<Id> {
    set k | k in categories && categories[k].user == user && categories[k].name == name
  }

  /** The names of `user`'s categories. */
  function OwnedNames(categories: map<Id, Category>, user: UserId): set<string> {
    set k | k in categories && categories[k].user == user :: categories[k].name
  }

  /** The names of the items of one category (`category.items.values_list("name")`). */
  function ItemNames(items: map<Id, CategoryItem>, category: Id): set<string> {
    set k | k in items && items[k].category == category :: items[k].name
  }

  /** `Category.objects.get_or_create(user=user, name=name)` needs at most one
      match: no two categories of `user` share a name. */
  ghost predicate UniqueNames(categories: map<Id, Category>, user: UserId) {
    forall a, b ::
      (a in categories && b in categories && categories[a].user == user && categories[b].user == user &&
       categories[a].name == categories[b].name) ==> a == b
  }

  // ---------------------------------------------------------------------
  // CategoryImportView.post, write phase

  /** New category items: every new row is the row created for one new name (`added`),
      in `category`, stamped `now`; existing rows are untouched. */
  ghost predicate ItemsAdded(before: map<Id, CategoryItem>, after: map<Id, CategoryItem>, category: Id, added: map<string, Id>, now: Timestamp) {
    && Extends(before, after)
    && (forall n :: n in added ==> added[n] in after && added[n] !in before && after[added[n]] == CategoryItem(category, n, now))
    && (forall k :: k in after && k !in before ==> after[k].name in added && added[after[k].name] == k)
  }

  lemma ItemsAddedStart(items: map<Id, CategoryItem>, category: Id, now: Timestamp)
    ensures ItemsAdded(items, items, category, map[], now)
  {
  }

  lemma ItemsAddedStep(before: map<Id, CategoryItem>, after: map<Id, CategoryItem>, after': map<Id, CategoryItem>,
                       category: Id, added: map<string, Id>, now: Timestamp, name: string, id: Id)
    requires ItemsAdded(before, after, category, added, now)
    requires name !in added && id !in after
    requires after' == after[id := CategoryItem(category, name, now)]
    ensures ItemsAdded(before, after', category, added[name := id], now)
  {
  }

  /** The ids of the rows of `category` called `name`. */
  function RowsNamed(items: map<Id, CategoryItem>, category: Id, name: string): set<Id> {
    set k | k in items && items[k].category == category && items[k].name == name
  }

  /** No item is created twice: every row added between `before` and `after`
      is stamped `now` and carries a (category, name) pair that had no row
      before, and it is the only row of that pair afterwards. */
  ghost predicate FreshRows(before: map<Id, CategoryItem>, after: map<Id, CategoryItem>, now: Timestamp) {
    && Extends(before, after)
    && forall k :: k in after && k !in before ==>
         after[k].createdAt == now &&
         RowsNamed(before, after[k].category, after[k].name) == {} &&
         RowsNamed(after, after[k].category, after[k].name) == {k}
  }

  /** One row per new name, for names the category did not hold, is fresh
      and stamped `now`. */
  lemma ItemsAddedFresh(before: map<Id, CategoryItem>, after: map<Id, CategoryItem>, category: Id, added: map<string, Id>, now: Timestamp)
    requires ItemsAdded(before, after, category, added, now)
    requires forall n :: n in added ==> n !in ItemNames(before, category)
    ensures FreshRows(before, after, now)
  {
    forall k | k in after && k !in before
      ensures after[k].createdAt == now
      ensures RowsNamed(before, after[k].category, after[k].name) == {}
      ensures RowsNamed(after, after[k].category, after[k].name) == {k}
    {
      var n := after[k].name;
      assert after[k].category == category && added[n] == k;
      forall k' | k' in before && before[k'].category == category
        ensures before[k'].name != n
      {
        assert before[k'].name in ItemNames(before, category);
      }
      assert forall k' :: k' in RowsNamed(after, category, n) ==> k' == k;
    }
  }

  /** Fresh rows added in two rounds are fresh over both. */
  lemma {:induction false} FreshRowsTrans(a: map<Id, CategoryItem>, b: map<Id, CategoryItem>, c: map<Id, CategoryItem>, now: Timestamp)
    requires FreshRows(a, b, now) && FreshRows(b, c, now)
    ensures FreshRows(a, c, now)
  {
    forall k | k in c && k !in a
      ensures c[k].createdAt == now
      ensures RowsNamed(a, c[k].category, c[k].name) == {}
      ensures RowsNamed(c, c[k].category, c[k].name) == {k}
    {
      var cat, n := c[k].category, c[k].name;
      if k in b {
        assert b[k] == c[k];
        assert RowsNamed(b, b[k].category, b[k].name) == {k};
        forall k' | k' in RowsNamed(c, cat, n)
          ensures k' == k
        {
          assert k' in b;
          assert k' in RowsNamed(b, cat, n);
        }
      } else {
        assert RowsNamed(b, cat, n) == {};
        forall k' | k' in a && a[k'].category == cat
          ensures a[k'].name != n
        {
          assert a[k'] == b[k'] && k' !in RowsNamed(b, cat, n);
        }
      }
    }
  }

  /** The rows an import adds to a category give it exactly the new names. */
  lemma ItemNamesAfter(before: map<Id, CategoryItem>, after: map<Id, CategoryItem>, category: Id, added: map<string, Id>, now: Timestamp)
    requires ItemsAdded(before, after, category, added, now)
    ensures ItemNames(after, category) == ItemNames(before, category) + added.Keys
  {
    forall n | n in ItemNames(after, category)
      ensures n in ItemNames(before, category) + added.Keys
    {
      var k :| k in after && after[k].category == category && after[k].name == n;
      if k in before {
        assert before[k] == after[k];
      }
    }
    forall n | n in added
      ensures n in ItemNames(after, category)
    {
      assert after[added[n]].name == n;
    }
  }

  /** The item loop after the first `i` names: `existing` is what the
      category holds so far, `added` maps each created name to its row, and
      the counters agree with both. */
  ghost predicate ItemLoop(before: map<Id, CategoryItem>, items: map<Id, CategoryItem>, category: Id,
                           names: seq<string>, i: nat, now: Timestamp,
                           existing: set<string>, added: map<string, Id>, created: nat, skipped: nat)
    requires i <= |names|
  {
    var known := ItemNames(before, category);
    && existing == known + Elements(names[..i])
    && added.Keys == Elements(names[..i]) - known
    && ItemsAdded(before, items, category, added, now)
    && skipped == CountIn(names[..i], known) && created + skipped == i
  }

  lemma ItemLoopStart(before: map<Id, CategoryItem>, category: Id, names: seq<string>, now: Timestamp)
    ensures ItemLoop(before, before, category, names, 0, now, ItemNames(before, category), map[], 0, 0)
  {
    ItemsAddedStart(before, category, now);
  }

  /** A name the category already holds is skipped. */
  lemma ItemLoopSkip(before: map<Id, CategoryItem>, items: map<Id, CategoryItem>, category: Id,
                     names: seq<string>, i: nat, now: Timestamp,
                     existing: set<string>, added: map<string, Id>, created: nat, skipped: nat)
    requires i < |names| && Distinct(names) && ItemLoop(before, items, category, names, i, now, existing, added, created, skipped)
    requires names[i] in existing
    ensures ItemLoop(before, items, category, names, i + 1, now, existing, added, created, skipped + 1)
  {
    CountInStep(names, ItemNames(before, category), i);
    DistinctNotBefore(names, i);
  }

  /** The name sets of the item loop after one more, new, name. */
  lemma NamesSeenStep(known: set<string>, names: seq<string>, i: nat, existing: set<string>, addedNames: set<string>)
    requires i < |names| && existing == known + Elements(names[..i]) && addedNames == Elements(names[..i]) - known
    requires names[i] !in existing
    ensures existing + {names[i]} == known + Elements(names[..i + 1])
    ensures addedNames + {names[i]} == Elements(names[..i + 1]) - known
  {
    CountInStep(names, known, i);
  }

  /** Any other name gets one new row. */
  lemma ItemLoopAdd(before: map<Id, CategoryItem>, items: map<Id, CategoryItem>, items': map<Id, CategoryItem>, id: Id,
                    category: Id, names: seq<string>, i: nat, now: Timestamp,
                    existing: set<string>, added: map<string, Id>, created: nat, skipped: nat)
    requires i < |names| && ItemLoop(before, items, category, names, i, now, existing, added, created, skipped)
    requires names[i] !in existing && id !in items && items' == items[id := CategoryItem(category, names[i], now)]
    ensures ItemLoop(before, items', category, names, i + 1, now, existing + {names[i]}, added[names[i] := id], created + 1, skipped)
  {
    CountInStep(names, ItemNames(before, category), i);
    NamesSeenStep(ItemNames(before, category), names, i, existing, added.Keys);
    assert added[names[i] := id].Keys == added.Keys + {names[i]};
    ItemsAddedStep(before, items, items', category, added, now, names[i], id);
  }

  /** The item loop of the import for one category: a name the category
      already holds is skipped, any other is created. */
  method ImportItems(db: Store, category: Id, names: seq<string>, now: Timestamp)
    returns (created: nat, skipped: nat, ghost added: map<string, Id>)
    requires db.Valid() && category in db.categories && Distinct(names)
    modifies db
    ensures db.Valid()
    ensures db.categories == old(db.categories) && db.trips == old(db.trips)
    ensures db.tripCategories == old(db.tripCategories) && db.tripItems == old(db.tripItems)
    ensures added.Keys == Elements(names) - ItemNames(old(db.categoryItems), category)
    ensures ItemsAdded(old(db.categoryItems), db.categoryItems, category, added, now)
    ensures FreshRows(old(db.categoryItems), db.categoryItems, now)
    ensures |db.categoryItems| == |old(db.categoryItems)| + created
    ensures skipped == CountIn(names, ItemNames(old(db.categoryItems), category))
    ensures created + skipped == |names|
  {
    ghost var before := db.categoryItems;
    var existing := ItemNames(db.categoryItems, category);
    created, skipped, added := 0, 0, map[];
    ItemLoopStart(before, category, names, now);
    for i := 0 to |names|
      invariant db.Valid()
      invariant db.categories == old(db.categories) && db.trips == old(db.trips)
      invariant db.tripCategories == old(db.tripCategories) && db.tripItems == old(db.tripItems)
      invariant ItemLoop(before, db.categoryItems, category, names, i, now, existing, added, created, skipped)
      invariant |db.categoryItems| == |before| + created
    {
      var name := names[i];
      if name in existing {
        ItemLoopSkip(before, db.categoryItems, category, names, i, now, existing, added, created, skipped);
        skipped := skipped + 1;
      } else {
        ghost var items := db.categoryItems;
        var id := db.InsertCategoryItem(CategoryItem(category, name, now));
        ItemLoopAdd(before, items, db.categoryItems, id, category, names, i, now, existing, added, created, skipped);
        added := added[name := id];
        existing := existing + {name};
        created := created + 1;
      }
    }
    assert names[..|names|] == names;
    ItemsAddedFresh(before, db.categoryItems, category, added, now);
  }

  /** The item names under `user`'s category called `name`, if any. */
  function NamesUnder(categories: map<Id, Category>, items: map<Id, CategoryItem>, user: UserId, name: string): set<string> {
    set k | k in items && items[k].category in NamedCategories(categories, user, name) :: items[k].name
  }

  lemma NoNamedIffNotOwned(categories: map<Id, Category>, user: UserId, name: string)
    ensures NamedCategories(categories, user, name) == {} <==> name !in OwnedNames(categories, user)
  {
    if name in OwnedNames(categories, user) {
      var k :| k in categories && categories[k].user == user && categories[k].name == name;
      assert k in NamedCategories(categories, user, name);
    }
  }

  /** With unique names, `user`'s category called `name` is `id`, and the
      names under it are its item names. */
  lemma NamesUnderUnique(categories: map<Id, Category>, items: map<Id, CategoryItem>, user: UserId, name: string, id: Id)
    requires UniqueNames(categories, user)
    requires id in categories && categories[id].user == user && categories[id].name == name
    ensures NamedCategories(categories, user, name) == {id}
    ensures NamesUnder(categories, items, user, name) == ItemNames(items, id)
  {
  }

  /** `Category.objects.get_or_create(user=user, name=name)`. */
  method GetOrCreateCategory(db: Store, user: UserId, name: string, now: Timestamp) returns (id: Id, created: bool)
    requires db.Valid() && UniqueNames(db.categories, user)
    modifies db
    ensures db.Valid() && UniqueNames(db.categories, user)
    ensures created <==> name !in OwnedNames(old(db.categories), user)
    ensures id in db.categories && db.categories[id].user == user && db.categories[id].name == name
    ensures !created ==> db.categories == old(db.categories)
    ensures created ==> id !in old(db.categories) && db.categories == old(db.categories)[id := Category(user, name, now)]
    ensures |db.categories| == |old(db.categories)| + if created then 1 else 0
    ensures db.categoryItems == old(db.categoryItems) && db.trips == old(db.trips)
    ensures db.tripCategories == old(db.tripCategories) && db.tripItems == old(db.tripItems)
  {
    var found := NamedCategories(db.categories, user, name);
    NoNamedIffNotOwned(db.categories, user, name);
    if found == {} {
      id := db.InsertCategory(Category(user, name, now));
      created := true;
    } else {
      id :| id in found;
      created := false;
    }
  }

  /** The item names a grouping lists for `name`. */
  function Listed(g: Grouping, name: string): set<string> {
    if name in g.itemsOf then Elements(g.itemsOf[name]) else {}
  }

  /** Under every category name, the items are those of the start plus, for
      the names already processed, the listed ones. */
  ghost predicate NamesTrack(cats0: map<Id, Category>, items0: map<Id, CategoryItem>,
                             cats: map<Id, Category>, items: map<Id, CategoryItem>,
                             user: UserId, g: Grouping, done: set<string>) {
    forall c :: NamesUnder(cats, items, user, c) == NamesUnder(cats0, items0, user, c) + if c in done then Listed(g, c) else {}
  }

  /** New categories belong to `user`, carry one of `names` and are stamped `now`. */
  ghost predicate CategoriesAdded(before: map<Id, Category>, after: map<Id, Category>, user: UserId, names: set<string>, now: Timestamp) {
    && Extends(before, after)
    && forall k :: k in after && k !in before ==> after[k] == Category(user, after[k].name, now) && after[k].name in names
  }

  /** New category items sit in categories of `user`. */
  ghost predicate ItemsOfUser(before: map<Id, CategoryItem>, after: map<Id, CategoryItem>, categories: map<Id, Category>, user: UserId) {
    && Extends(before, after)
    && forall k :: k in after && k !in before ==> after[k].category in categories && categories[after[k].category].user == user
  }

  /** One category of the import: after get-or-create and the item loop, the
      names under it are the old ones plus the listed ones, and nothing
      changes under any other name. */
  lemma ImportStepNames(cats0: map<Id, Category>, items0: map<Id, CategoryItem>, cats1: map<Id, Category>, items2: map<Id, CategoryItem>,
                        user: UserId, c: string, id: Id, created: bool, added: map<string, Id>, names: seq<string>, now: Timestamp)
    requires CategoryItemsClosed(items0, cats0.Keys) && UniqueNames(cats1, user)
    requires id in cats1 && cats1[id].user == user && cats1[id].name == c
    requires created ==> id !in cats0 && cats1 == cats0[id := Category(user, c, now)] && c !in OwnedNames(cats0, user)
    requires !created ==> cats1 == cats0
    requires ItemsAdded(items0, items2, id, added, now) && added.Keys == Elements(names) - ItemNames(items0, id)
    ensures ItemNames(items0, id) == NamesUnder(cats0, items0, user, c)
    ensures NamesUnder(cats1, items2, user, c) == NamesUnder(cats0, items0, user, c) + Elements(names)
    ensures forall c' :: c' != c ==> NamesUnder(cats1, items2, user, c') == NamesUnder(cats0, items0, user, c')
  {
    NamesUnderUnique(cats1, items2, user, c, id);
    ItemNamesAfter(items0, items2, id, added, now);
    if created {
      NoNamedIffNotOwned(cats0, user, c);
      assert ItemNames(items0, id) == {};
    } else {
      NamesUnderUnique(cats0, items0, user, c, id);
    }
    ItemsAddedInto(items0, items2, id, added, now);
    forall c' | c' != c
      ensures NamesUnder(cats1, items2, user, c') == NamesUnder(cats0, items0, user, c')
    {
      assert NamedCategories(cats1, user, c') == NamedCategories(cats0, user, c');
      NamesUnderFrame(cats0, items0, cats1, items2, user, c', id);
    }
  }

  /** Every row an import adds to a category's items is in that category. */
  lemma ItemsAddedInto(before: map<Id, CategoryItem>, after: map<Id, CategoryItem>, category: Id, added: map<string, Id>, now: Timestamp)
    requires ItemsAdded(before, after, category, added, now)
    ensures forall k :: k in after && k !in before ==> after[k].category == category
  {
  }

  /** Rows added to category `id` do not change the names under a name that
      does not denote `id`. */
  lemma NamesUnderFrame(cats: map<Id, Category>, items: map<Id, CategoryItem>,
                        cats': map<Id, Category>, items': map<Id, CategoryItem>, user: UserId, name: string, id: Id)
    requires NamedCategories(cats', user, name) == NamedCategories(cats, user, name)
    requires id !in NamedCategories(cats, user, name)
    requires Extends(items, items')
    requires forall k :: k in items' && k !in items ==> items'[k].category == id
    ensures NamesUnder(cats', items', user, name) == NamesUnder(cats, items, user, name)
  {
    forall n | n in NamesUnder(cats', items', user, name)
      ensures n in NamesUnder(cats, items, user, name)
    {
      var k :| k in items' && items'[k].category in NamedCategories(cats', user, name) && items'[k].name == n;
      assert items'[k].category != id;
    }
  }

  lemma NamesTrackStep(cats0: map<Id, Category>, items0: map<Id, CategoryItem>,
                       cats: map<Id, Category>, items: map<Id, CategoryItem>,
                       cats1: map<Id, Category>, items2: map<Id, CategoryItem>,
                       user: UserId, g: Grouping, done: set<string>, c: string)
    requires NamesTrack(cats0, items0, cats, items, user, g, done)
    requires c !in done && c in g.itemsOf
    requires NamesUnder(cats1, items2, user, c) == NamesUnder(cats, items, user, c) + Elements(g.itemsOf[c])
    requires forall c' :: c' != c ==> NamesUnder(cats1, items2, user, c') == NamesUnder(cats, items, user, c')
    ensures NamesTrack(cats0, items0, cats1, items2, user, g, done + {c})
  {
    forall c' | true
      ensures NamesUnder(cats1, items2, user, c') == NamesUnder(cats0, items0, user, c') + if c' in done + {c} then Listed(g, c') else {}
    {
      assert NamesUnder(cats, items, user, c') == NamesUnder(cats0, items0, user, c') + if c' in done then Listed(g, c') else {};
    }
  }

  /** The four counters of the import's response. */
  datatype ImportReport = ImportReport(categoriesCreated: nat, categoriesExisting: nat, itemsCreated: nat, itemsSkipped: nat)

  /** How many listed (category, item) pairs the store already holds. */
  function Present(order: seq<string>, itemsOf: map<string, seq<string>>,
                   categories: map<Id, Category>, items: map<Id, CategoryItem>, user: UserId): nat
    requires forall c :: c in order ==> c in itemsOf
  {
    if order == [] then 0
    else
      var c := order[|order| - 1];
      Present(order[..|order| - 1], itemsOf, categories, items, user) + CountIn(itemsOf[c], NamesUnder(categories, items, user, c))
  }

  lemma PresentStep(order: seq<string>, itemsOf: map<string, seq<string>>,
                    categories: map<Id, Category>, items: map<Id, CategoryItem>, user: UserId, j: nat)
    requires j < |order| && forall c :: c in order ==> c in itemsOf
    ensures Present(order[..j + 1], itemsOf, categories, items, user) ==
      Present(order[..j], itemsOf, categories, items, user) + CountIn(itemsOf[order[j]], NamesUnder(categories, items, user, order[j]))
  {
    assert order[..j + 1][..j] == order[..j];
  }

  lemma OwnedNamesInsert(categories: map<Id, Category>, user: UserId, id: Id, name: string, now: Timestamp)
    requires id !in categories
    ensures OwnedNames(categories[id := Category(user, name, now)], user) == OwnedNames(categories, user) + {name}
  {
    var after := categories[id := Category(user, name, now)];
    forall n | n in OwnedNames(after, user)
      ensures n in OwnedNames(categories, user) + {name}
    {
      var k :| k in after && after[k].user == user && after[k].name == n;
      if k != id {
        assert categories[k] == after[k];
      }
    }
    forall n | n in OwnedNames(categories, user)
      ensures n in OwnedNames(after, user)
    {
      var k :| k in categories && categories[k].user == user && categories[k].name == n;
      assert after[k] == categories[k];
    }
    assert after[id].name == name;
  }

  /** What the writes for one category `c` of the import amount to: `c` is
      now one of `user`'s category names (created exactly when it was not
      one before), the names under `c` gain the listed ones, the names under
      every other name stay, `kept` counts the listed names already there and
      `made` the others. */
  ghost predicate CategoryImported(cats: map<Id, Category>, items: map<Id, CategoryItem>,
                                   cats': map<Id, Category>, items': map<Id, CategoryItem>,
                                   user: UserId, c: string, names: seq<string>, now: Timestamp,
                                   created: bool, made: nat, kept: nat) {
    && (created <==> c !in OwnedNames(cats, user))
    && OwnedNames(cats', user) == OwnedNames(cats, user) + {c}
    && CategoriesAdded(cats, cats', user, {c}, now)
    && ItemsOfUser(items, items', cats', user)
    && NamesUnder(cats', items', user, c) == NamesUnder(cats, items, user, c) + Elements(names)
    && (forall c' :: c' != c ==> NamesUnder(cats', items', user, c') == NamesUnder(cats, items, user, c'))
    && kept == CountIn(names, NamesUnder(cats, items, user, c))
    && made + kept == |names|
  }

  /** The category table grew by `catsMade` rows and the item table by
      `itemsMade`, every new item row being stamped `now` and the only row
      of its (category, name) pair, a pair that had no row before. */
  ghost predicate Grown(cats: map<Id, Category>, items: map<Id, CategoryItem>,
                        cats': map<Id, Category>, items': map<Id, CategoryItem>, catsMade: nat, itemsMade: nat, now: Timestamp) {
    && FreshRows(items, items', now)
    && |cats'| == |cats| + catsMade
    && |items'| == |items| + itemsMade
  }

  lemma GrownStart(cats: map<Id, Category>, items: map<Id, CategoryItem>, now: Timestamp)
    ensures Grown(cats, items, cats, items, 0, 0, now)
  {
  }

  /** Growth composes: the counts add up and no pair gets a second row. */
  lemma GrownTrans(cats: map<Id, Category>, items: map<Id, CategoryItem>,
                   cats': map<Id, Category>, items': map<Id, CategoryItem>,
                   cats'': map<Id, Category>, items'': map<Id, CategoryItem>, m: nat, n: nat, m': nat, n': nat,
                   now: Timestamp)
    requires Grown(cats, items, cats', items', m, n, now) && Grown(cats', items', cats'', items'', m', n', now)
    ensures Grown(cats, items, cats'', items'', m + m', n + n', now)
  {
    FreshRowsTrans(items, items', items'', now);
  }

  /** Get-or-create of category `c`, then its item loop, amount to `CategoryImported`. */
  lemma CategoryImportedIntro(cats: map<Id, Category>, items: map<Id, CategoryItem>,
                              cats1: map<Id, Category>, items2: map<Id, CategoryItem>,
                              user: UserId, c: string, id: Id, created: bool, added: map<string, Id>,
                              names: seq<string>, now: Timestamp, made: nat, kept: nat)
    requires CategoryItemsClosed(items, cats.Keys) && UniqueNames(cats1, user)
    requires created <==> c !in OwnedNames(cats, user)
    requires id in cats1 && cats1[id].user == user && cats1[id].name == c
    requires !created ==> cats1 == cats
    requires created ==> id !in cats && cats1 == cats[id := Category(user, c, now)]
    requires added.Keys == Elements(names) - ItemNames(items, id)
    requires ItemsAdded(items, items2, id, added, now)
    requires kept == CountIn(names, ItemNames(items, id)) && made + kept == |names|
    ensures CategoryImported(cats, items, cats1, items2, user, c, names, now, created, made, kept)
  {
    if created {
      OwnedNamesInsert(cats, user, id, c, now);
    } else {
      assert c in OwnedNames(cats, user);
    }
    ImportStepNames(cats, items, cats1, items2, user, c, id, created, added, names, now);
  }

  /** One category of the import: get-or-create it, then its item loop. */
  method ImportCategory(db: Store, user: UserId, c: string, names: seq<string>, now: Timestamp)
    returns (created: bool, made: nat, kept: nat)
    requires db.Valid() && UniqueNames(db.categories, user) && Distinct(names)
    modifies db
    ensures db.Valid() && UniqueNames(db.categories, user)
    ensures db.trips == old(db.trips) && db.tripCategories == old(db.tripCategories) && db.tripItems == old(db.tripItems)
    ensures CategoryImported(old(db.categories), old(db.categoryItems), db.categories, db.categoryItems,
                             user, c, names, now, created, made, kept)
    ensures Grown(old(db.categories), old(db.categoryItems), db.categories, db.categoryItems, if created then 1 else 0, made, now)
  {
    ghost var cats, items := db.categories, db.categoryItems;
    var id;
    id, created := GetOrCreateCategory(db, user, c, now);
    ghost var cats1 := db.categories;
    ghost var added;
    made, kept, added := ImportItems(db, id, names, now);
    CategoryImportedIntro(cats, items, cats1, db.categoryItems, user, c, id, created, added, names, now, made, kept);
  }

  /** What the import loop keeps, over the names `done` so far. */
  ghost predicate ImportProgress(cats0: map<Id, Category>, items0: map<Id, CategoryItem>,
                                 cats: map<Id, Category>, items: map<Id, CategoryItem>,
                                 user: UserId, g: Grouping, done: set<string>, now: Timestamp) {
    && CategoriesAdded(cats0, cats, user, done, now)
    && ItemsOfUser(items0, items, cats, user)
    && OwnedNames(cats, user) == OwnedNames(cats0, user) + done
    && NamesTrack(cats0, items0, cats, items, user, g, done)
  }

  lemma ImportProgressStart(cats0: map<Id, Category>, items0: map<Id, CategoryItem>, user: UserId, g: Grouping, now: Timestamp)
    ensures ImportProgress(cats0, items0, cats0, items0, user, g, {}, now)
  {
  }

  lemma ImportProgressStep(cats0: map<Id, Category>, items0: map<Id, CategoryItem>,
                           cats: map<Id, Category>, items: map<Id, CategoryItem>,
                           cats': map<Id, Category>, items': map<Id, CategoryItem>,
                           user: UserId, g: Grouping, done: set<string>, c: string, done': set<string>, now: Timestamp,
                           created: bool, made: nat, kept: nat)
    requires ImportProgress(cats0, items0, cats, items, user, g, done, now)
    requires c !in done && c in g.itemsOf && done' == done + {c}
    requires CategoryImported(cats, items, cats', items', user, c, g.itemsOf[c], now, created, made, kept)
    ensures ImportProgress(cats0, items0, cats', items', user, g, done', now)
  {
    NamesTrackStep(cats0, items0, cats, items, cats', items', user, g, done, c);
  }

  /** The writes of a whole import: every listed category name is now one of
      `user`'s categories (new ones stamped `now`), each holds its old items
      plus the listed ones, every new item sits in a category of `user`, and
      no other name's items change. */
  ghost predicate ImportWritten(cats0: map<Id, Category>, items0: map<Id, CategoryItem>,
                                cats: map<Id, Category>, items: map<Id, CategoryItem>,
                                user: UserId, g: Grouping, now: Timestamp) {
    && CategoriesAdded(cats0, cats, user, g.itemsOf.Keys, now)
    && ItemsOfUser(items0, items, cats, user)
    && OwnedNames(cats, user) == OwnedNames(cats0, user) + g.itemsOf.Keys
    && forall c :: NamesUnder(cats, items, user, c) == NamesUnder(cats0, items0, user, c) + Listed(g, c)
  }

  lemma ImportProgressDone(cats0: map<Id, Category>, items0: map<Id, CategoryItem>,
                           cats: map<Id, Category>, items: map<Id, CategoryItem>,
                           user: UserId, g: Grouping, now: Timestamp)
    requires ImportProgress(cats0, items0, cats, items, user, g, g.itemsOf.Keys, now)
    ensures ImportWritten(cats0, items0, cats, items, user, g, now)
  {
    forall c | true
      ensures NamesUnder(cats, items, user, c) == NamesUnder(cats0, items0, user, c) + Listed(g, c)
    {
      assert NamesUnder(cats, items, user, c) == NamesUnder(cats0, items0, user, c) + if c in g.itemsOf.Keys then Listed(g, c) else {};
    }
  }

  /** One turn of the import loop, on values: the writes for `g.order[j]`
      extend the progress to the first `j + 1` names, and what they report
      is measured against the tables before the whole import. */
  lemma ImportNextStep(cats0: map<Id, Category>, items0: map<Id, CategoryItem>,
                       cats: map<Id, Category>, items: map<Id, CategoryItem>,
                       cats': map<Id, Category>, items': map<Id, CategoryItem>,
                       user: UserId, g: Grouping, j: nat, now: Timestamp, created: bool, made: nat, kept: nat)
    requires WellFormed(g) && Covers(g) && j < |g.order|
    requires ImportProgress(cats0, items0, cats, items, user, g, Elements(g.order[..j]), now)
    requires CategoryImported(cats, items, cats', items', user, g.order[j], g.itemsOf[g.order[j]], now, created, made, kept)
    ensures ImportProgress(cats0, items0, cats', items', user, g, Elements(g.order[..j + 1]), now)
    ensures created <==> g.order[j] !in OwnedNames(cats0, user)
    ensures kept == CountIn(g.itemsOf[g.order[j]], NamesUnder(cats0, items0, user, g.order[j]))
    ensures made + kept == |g.itemsOf[g.order[j]]|
  {
    var c := g.order[j];
    CountInStep(g.order, OwnedNames(cats0, user), j);
    DistinctNotBefore(g.order, j);
    assert NamesUnder(cats, items, user, c) == NamesUnder(cats0, items0, user, c);
    ImportProgressStep(cats0, items0, cats, items, cats', items', user, g,
                       Elements(g.order[..j]), c, Elements(g.order[..j + 1]), now, created, made, kept);
  }

  /** One turn of the import loop: category name `g.order[j]`. */
  method ImportNext(db: Store, user: UserId, g: Grouping, j: nat, now: Timestamp,
                    ghost cats0: map<Id, Category>, ghost items0: map<Id, CategoryItem>)
    returns (created: bool, made: nat, kept: nat)
    requires db.Valid() && UniqueNames(db.categories, user) && WellFormed(g) && Covers(g) && j < |g.order|
    requires ImportProgress(cats0, items0, db.categories, db.categoryItems, user, g, Elements(g.order[..j]), now)
    modifies db
    ensures db.Valid() && UniqueNames(db.categories, user)
    ensures db.trips == old(db.trips) && db.tripCategories == old(db.tripCategories) && db.tripItems == old(db.tripItems)
    ensures ImportProgress(cats0, items0, db.categories, db.categoryItems, user, g, Elements(g.order[..j + 1]), now)
    ensures created <==> g.order[j] !in OwnedNames(cats0, user)
    ensures kept == CountIn(g.itemsOf[g.order[j]], NamesUnder(cats0, items0, user, g.order[j]))
    ensures made + kept == |g.itemsOf[g.order[j]]|
    ensures Grown(old(db.categories), old(db.categoryItems), db.categories, db.categoryItems, if created then 1 else 0, made, now)
  {
    ghost var cats, items := db.categories, db.categoryItems;
    created, made, kept := ImportCategory(db, user, g.order[j], g.itemsOf[g.order[j]], now);
    ImportNextStep(cats0, items0, cats, items, db.categories, db.categoryItems, user, g, j, now, created, made, kept);
  }

  /** The counters after the first `j` category names of the grouping. */
  ghost predicate Counted(cats0: map<Id, Category>, items0: map<Id, CategoryItem>, user: UserId, g: Grouping, j: nat,
                          categoriesCreated: nat, categoriesExisting: nat, itemsCreated: nat, itemsSkipped: nat)
    requires Covers(g) && j <= |g.order|
  {
    && categoriesCreated + categoriesExisting == j
    && categoriesExisting == CountIn(g.order[..j], OwnedNames(cats0, user))
    && itemsCreated + itemsSkipped == Total(g.order[..j], g.itemsOf)
    && itemsSkipped == Present(g.order[..j], g.itemsOf, cats0, items0, user)
  }

  lemma CountedStep(cats0: map<Id, Category>, items0: map<Id, CategoryItem>, user: UserId, g: Grouping, j: nat,
                    categoriesCreated: nat, categoriesExisting: nat, itemsCreated: nat, itemsSkipped: nat,
                    created: bool, made: nat, kept: nat)
    requires Covers(g) && j < |g.order|
    requires Counted(cats0, items0, user, g, j, categoriesCreated, categoriesExisting, itemsCreated, itemsSkipped)
    requires created <==> g.order[j] !in OwnedNames(cats0, user)
    requires kept == CountIn(g.itemsOf[g.order[j]], NamesUnder(cats0, items0, user, g.order[j]))
    requires made + kept == |g.itemsOf[g.order[j]]|
    ensures Counted(cats0, items0, user, g, j + 1,
                    if created then categoriesCreated + 1 else categoriesCreated,
                    if created then categoriesExisting else categoriesExisting + 1,
                    itemsCreated + made, itemsSkipped + kept)
  {
    CountInStep(g.order, OwnedNames(cats0, user), j);
    TotalStep(g.order, g.itemsOf, j);
    PresentStep(g.order, g.itemsOf, cats0, items0, user, j);
  }

  /** What the import loop keeps after the first `j` category names: the
      writes so far, the counters so far, and how much the tables grew. */
  ghost predicate ImportState(cats0: map<Id, Category>, items0: map<Id, CategoryItem>,
                              cats: map<Id, Category>, items: map<Id, CategoryItem>,
                              user: UserId, g: Grouping, j: nat, now: Timestamp,
                              categoriesCreated: nat, categoriesExisting: nat, itemsCreated: nat, itemsSkipped: nat)
    requires Covers(g) && j <= |g.order|
  {
    && ImportProgress(cats0, items0, cats, items, user, g, Elements(g.order[..j]), now)
    && Counted(cats0, items0, user, g, j, categoriesCreated, categoriesExisting, itemsCreated, itemsSkipped)
    && Grown(cats0, items0, cats, items, categoriesCreated, itemsCreated, now)
  }

  lemma ImportStateStep(cats0: map<Id, Category>, items0: map<Id, CategoryItem>,
                        cats: map<Id, Category>, items: map<Id, CategoryItem>,
                        cats': map<Id, Category>, items': map<Id, CategoryItem>,
                        user: UserId, g: Grouping, j: nat, now: Timestamp,
                        categoriesCreated: nat, categoriesExisting: nat, itemsCreated: nat, itemsSkipped: nat,
                        created: bool, made: nat, kept: nat,
                        categoriesCreated': nat, categoriesExisting': nat, itemsCreated': nat, itemsSkipped': nat)
    requires Covers(g) && j < |g.order|
    requires ImportState(cats0, items0, cats, items, user, g, j, now, categoriesCreated, categoriesExisting, itemsCreated, itemsSkipped)
    requires ImportProgress(cats0, items0, cats', items', user, g, Elements(g.order[..j + 1]), now)
    requires created <==> g.order[j] !in OwnedNames(cats0, user)
    requires kept == CountIn(g.itemsOf[g.order[j]], NamesUnder(cats0, items0, user, g.order[j]))
    requires made + kept == |g.itemsOf[g.order[j]]|
    requires Grown(cats, items, cats', items', if created then 1 else 0, made, now)
    requires categoriesCreated' == if created then categoriesCreated + 1 else categoriesCreated
    requires categoriesExisting' == if created then categoriesExisting else categoriesExisting + 1
    requires itemsCreated' == itemsCreated + made && itemsSkipped' == itemsSkipped + kept
    ensures ImportState(cats0, items0, cats', items', user, g, j + 1, now,
                        categoriesCreated', categoriesExisting', itemsCreated', itemsSkipped')
  {
    CountedStep(cats0, items0, user, g, j, categoriesCreated, categoriesExisting, itemsCreated, itemsSkipped, created, made, kept);
    GrownTrans(cats0, items0, cats, items, cats', items', categoriesCreated, itemsCreated, if created then 1 else 0, made, now);
  }

  /** The import loop: every category name of the grouping, in order. */
  method ImportLoop(db: Store, user: UserId, g: Grouping, now: Timestamp)
    returns (categoriesCreated: nat, categoriesExisting: nat, itemsCreated: nat, itemsSkipped: nat)
    requires db.Valid() && UniqueNames(db.categories, user) && WellFormed(g) && Covers(g)
    modifies db
    ensures db.Valid() && UniqueNames(db.categories, user)
    ensures db.trips == old(db.trips) && db.tripCategories == old(db.tripCategories) && db.tripItems == old(db.tripItems)
    ensures ImportState(old(db.categories), old(db.categoryItems), db.categories, db.categoryItems, user, g, |g.order|, now,
                        categoriesCreated, categoriesExisting, itemsCreated, itemsSkipped)
  {
    ghost var cats0, items0 := db.categories, db.categoryItems;
    categoriesCreated, categoriesExisting, itemsCreated, itemsSkipped := 0, 0, 0, 0;
    ImportProgressStart(cats0, items0, user, g, now);
    GrownStart(cats0, items0, now);
    for j := 0 to |g.order|
      invariant db.Valid() && UniqueNames(db.categories, user)
      invariant db.trips == old(db.trips) && db.tripCategories == old(db.tripCategories) && db.tripItems == old(db.tripItems)
      invariant ImportState(cats0, items0, db.categories, db.categoryItems, user, g, j, now,
                            categoriesCreated, categoriesExisting, itemsCreated, itemsSkipped)
    {
      ghost var cats, items := db.categories, db.categoryItems;
      ghost var cc, ce, ic, sk := categoriesCreated, categoriesExisting, itemsCreated, itemsSkipped;
      var created, made, kept := ImportNext(db, user, g, j, now, cats0, items0);
      categoriesCreated := if created then categoriesCreated + 1 else categoriesCreated;
      categoriesExisting := if created then categoriesExisting else categoriesExisting + 1;
      itemsCreated, itemsSkipped := itemsCreated + made, itemsSkipped + kept;
      ImportStateStep(cats0, items0, cats, items, db.categories, db.categoryItems, user, g, j, now,
                      cc, ce, ic, sk, created, made, kept,
                      categoriesCreated, categoriesExisting, itemsCreated, itemsSkipped);
    }
  }

  /** The write phase of the import, over a grouping: one get-or-create per
      category name, then that category's item loop. */
  method WriteImport(db: Store, user: UserId, g: Grouping, now: Timestamp) returns (report: ImportReport)
    requires db.Valid() && UniqueNames(db.categories, user) && WellFormed(g)
    modifies db
    ensures db.Valid() && UniqueNames(db.categories, user)
    ensures db.trips == old(db.trips) && db.tripCategories == old(db.tripCategories) && db.tripItems == old(db.tripItems)
    ensures ImportWritten(old(db.categories), old(db.categoryItems), db.categories, db.categoryItems, user, g, now)
    ensures Covers(g)
    ensures report.categoriesCreated + report.categoriesExisting == |g.order|
    ensures report.categoriesExisting == CountIn(g.order, OwnedNames(old(db.categories), user))
    ensures report.itemsCreated + report.itemsSkipped == PairCount(g)
    ensures report.itemsSkipped == Present(g.order, g.itemsOf, old(db.categories), old(db.categoryItems), user)
    ensures Grown(old(db.categories), old(db.categoryItems), db.categories, db.categoryItems, report.categoriesCreated, report.itemsCreated, now)
  {
    WellFormedCovers(g);
    var categoriesCreated, categoriesExisting, itemsCreated, itemsSkipped := ImportLoop(db, user, g, now);
    assert g.order[..|g.order|] == g.order;
    assert Elements(g.order) == g.itemsOf.Keys;
    ImportProgressDone(old(db.categories), old(db.categoryItems), db.categories, db.categoryItems, user, g, now);
    report := ImportReport(categoriesCreated, categoriesExisting, itemsCreated, itemsSkipped);
  }

  /** The validation and grouping half of `CategoryImportView.post`. */
  method ParseImport(body: RowsField) returns (r: Result<Grouping>)
    ensures r.Invalid? <==> ValidateImport(body).Invalid?
    ensures !r.NotFound?
    ensures r.Invalid? ==> r.error == ValidateImport(body).error
    ensures r.Ok? ==> r.value == Grouped(ValidateImport(body).value) && WellFormed(r.value)
  {
    var valid := ValidateImport(body);
    if valid.Invalid? {
      return Invalid(valid.error);
    }
    var rows := valid.value;
    ImportedNamesValid(body);
    StripAgainIsIdentity(rows);
    var g := GroupRows(Stripped(rows));
    GroupedWellFormed(rows);
    r := Ok(g);
  }

  /** What the import's counters and writes mean in terms of the rows. */
  lemma ImportMeaning(rows: seq<ImportRow>)
    ensures WellFormed(Grouped(rows)) && Covers(Grouped(rows))
    ensures |Grouped(rows).order| == |Elements(CategoriesOf(rows))|
    ensures Grouped(rows).itemsOf.Keys == Elements(CategoriesOf(rows))
    ensures PairCount(Grouped(rows)) == |PairsOf(rows)|
    ensures forall p :: p in PairsOf(rows) <==> p.1 in Listed(Grouped(rows), p.0)
  {
    GroupedWellFormed(rows);
    GroupedIsFirstOccurrences(rows);
    GroupedPairs(rows);
    PairCountIsDistinctPairs(rows);
    DistinctCard(Grouped(rows).order);
  }

  /** `CategoryImportView.post`: validate the body, group the rows, write them.
      A refused body changes nothing; an accepted one is written as a whole
      (the view runs the writes in one transaction). */
  method CategoryImport(db: Store, user: UserId, body: RowsField, now: Timestamp) returns (r: Result<ImportReport>)
    requires db.Valid() && UniqueNames(db.categories, user)
    modifies db
    ensures db.Valid() && UniqueNames(db.categories, user)
    ensures r.Invalid? <==> ValidateImport(body).Invalid?
    ensures !r.NotFound?
    ensures r.Invalid? ==> r.error == ValidateImport(body).error
    ensures r.Invalid? ==> db.categories == old(db.categories) && db.categoryItems == old(db.categoryItems)
    ensures db.trips == old(db.trips) && db.tripCategories == old(db.tripCategories) && db.tripItems == old(db.tripItems)
    ensures r.Ok? ==>
      var g := Grouped(ValidateImport(body).value);
      && Covers(g)
      && r.value.categoriesCreated + r.value.categoriesExisting == |g.order|
      && r.value.categoriesExisting == CountIn(g.order, OwnedNames(old(db.categories), user))
      && r.value.itemsCreated + r.value.itemsSkipped == PairCount(g)
      && r.value.itemsSkipped == Present(g.order, g.itemsOf, old(db.categories), old(db.categoryItems), user)
      && ImportWritten(old(db.categories), old(db.categoryItems), db.categories, db.categoryItems, user, g, now)
      && Grown(old(db.categories), old(db.categoryItems), db.categories, db.categoryItems, r.value.categoriesCreated, r.value.itemsCreated, now)
  {
    var parsed := ParseImport(body);
    if parsed.Invalid? {
      return Invalid(parsed.error);
    }
    var report := WriteImport(db, user, parsed.value, now);
    r := Ok(report);
  }

  // ---------------------------------------------------------------------
  // Owner-scoped querysets and `get_object_or_404`

  /** `get_object_or_404(Category, pk=pk, user=user)`. */
  function OwnedCategory(categories: map<Id, Category>, user: UserId, pk: int): (r: Result<Id>)
    ensures r.Ok? <==> pk in categories && categories[pk].user == user
    ensures r.Ok? ==> r.value == pk
    ensures !r.Ok? ==> r.NotFound?
  {
    if pk in categories && categories[pk].user == user then Ok(pk) else NotFound
  }

  /** `get_object_or_404(Trip, pk=pk, user=user)`. */
  function OwnedTrip(trips: map<Id, Trip>, user: UserId, pk: int): (r: Result<Id>)
    ensures r.Ok? <==> pk in trips && trips[pk].user == user
    ensures r.Ok? ==> r.value == pk
    ensures !r.Ok? ==> r.NotFound?
  {
    if pk in trips && trips[pk].user == user then Ok(pk) else NotFound
  }

  /** `CategoryDetailView.get_queryset`. */
  function CategoryQueryset(categories: map<Id, Category>, user: UserId): (r: set<Id>)
    ensures forall k :: k in r <==> k in categories && categories[k].user == user
  {
    OwnedCategoryIds(categories, user)
  }

  /** `TripDetailView.get_queryset`. */
  function TripQueryset(trips: map<Id, Trip>, user: UserId): (r: set<Id>)
    ensures forall k :: k in r <==> k in trips && trips[k].user == user
  {
    OwnedTripIds(trips, user)
  }

  /** The item views of a category: 404 unless the category is the user's,
      then that category's items. */
  function CategoryItemQueryset(categories: map<Id, Category>, items: map<Id, CategoryItem>, user: UserId, categoryPk: int): (r: Result<set<Id>>)
    ensures r.Ok? <==> categoryPk in categories && categories[categoryPk].user == user
    ensures !r.Ok? ==> r.NotFound?
    ensures r.Ok? ==> forall k :: k in r.value <==> k in items && items[k].category == categoryPk
    ensures r.Ok? ==> forall k :: k in r.value ==> categories[items[k].category].user == user
  {
    match OwnedCategory(categories, user, categoryPk)
    case Ok(c) => Ok(ItemIdsOf(items, c))
    case NotFound => NotFound
    case Invalid(e) => Invalid(e)
  }

  /** The item views of a trip: 404 unless the trip is the user's, then that
      trip's items. */
  function TripItemQueryset(trips: map<Id, Trip>, items: map<Id, TripItem>, user: UserId, tripPk: int): (r: Result<set<Id>>)
    ensures r.Ok? <==> tripPk in trips && trips[tripPk].user == user
    ensures !r.Ok? ==> r.NotFound?
    ensures r.Ok? ==> forall k :: k in r.value <==> k in items && items[k].trip == tripPk
    ensures r.Ok? ==> forall k :: k in r.value ==> trips[items[k].trip].user == user
  {
    match OwnedTrip(trips, user, tripPk)
    case Ok(t) => Ok(TripItemIds(items, t))
    case NotFound => NotFound
    case Invalid(e) => Invalid(e)
  }

  /** `get_object()` of a detail view: the row `pk` if the queryset holds it. */
  function Retrieve(queryset: Result<set<Id>>, pk: int): (r: Result<Id>)
    ensures r.Ok? <==> queryset.Ok? && pk in queryset.value
    ensures r.Ok? ==> r.value == pk
    ensures r.Invalid? <==> queryset.Invalid?
    ensures r.Invalid? ==> r.error == queryset.error
  {
    match queryset
    case Ok(ids) => if pk in ids then Ok(pk) else NotFound
    case NotFound => NotFound
    case Invalid(e) => Invalid(e)
  }

  /** Someone else's category or trip answers exactly as a missing one. */
  lemma ForeignLooksMissing(categories: map<Id, Category>, categoryItems: map<Id, CategoryItem>,
                            trips: map<Id, Trip>, tripItems: map<Id, TripItem>, user: UserId, pk: Id)
    ensures pk in categories && categories[pk].user != user ==>
      CategoryItemQueryset(categories, categoryItems, user, pk) == CategoryItemQueryset(categories - {pk}, categoryItems, user, pk) == NotFound
    ensures pk in trips && trips[pk].user != user ==>
      TripItemQueryset(trips, tripItems, user, pk) == TripItemQueryset(trips - {pk}, tripItems, user, pk) == NotFound
  {
  }

  /** What `user` sees of the categories: their rows, and nothing else. */
  function OwnCategories(categories: map<Id, Category>, user: UserId): map<Id, Category> {
    map k | k in categories && categories[k].user == user :: categories[k]
  }

  /** What `user` sees of the category items: those in their categories. */
  function OwnCategoryItems(categories: map<Id, Category>, items: map<Id, CategoryItem>, user: UserId): map<Id, CategoryItem> {
    map k | k in items && items[k].category in categories && categories[items[k].category].user == user :: items[k]
  }

  /** Other users' data never changes what a user's category querysets
      answer: two stores that agree on `user`'s rows answer alike. */
  lemma CategoryIsolation(categories: map<Id, Category>, items: map<Id, CategoryItem>,
                          categories': map<Id, Category>, items': map<Id, CategoryItem>, user: UserId, pk: int)
    requires OwnCategories(categories, user) == OwnCategories(categories', user)
    requires OwnCategoryItems(categories, items, user) == OwnCategoryItems(categories', items', user)
    ensures CategoryQueryset(categories, user) == CategoryQueryset(categories', user)
    ensures CategoryItemQueryset(categories, items, user, pk) == CategoryItemQueryset(categories', items', user, pk)
  {
    var own, own' := OwnCategories(categories, user), OwnCategories(categories', user);
    assert CategoryQueryset(categories, user) == own.Keys;
    assert CategoryQueryset(categories', user) == own'.Keys;
    if pk in categories && categories[pk].user == user {
      assert pk in own' && categories'[pk] == own'[pk] == own[pk] == categories[pk];
      var c := pk as Id;
      var ownItems, ownItems' := OwnCategoryItems(categories, items, user), OwnCategoryItems(categories', items', user);
      forall k | k in ItemIdsOf(items, c)
        ensures k in ItemIdsOf(items', c)
      {
        assert k in ownItems && items'[k] == ownItems'[k] == ownItems[k] == items[k];
      }
      forall k | k in ItemIdsOf(items', c)
        ensures k in ItemIdsOf(items, c)
      {
        assert k in ownItems' && items'[k] == ownItems'[k] == ownItems[k] == items[k];
      }
      assert ItemIdsOf(items, c) == ItemIdsOf(items', c);
    } else {
      assert pk !in own;
    }
  }

  /** What `user` sees of the trips and trip items. */
  function OwnTrips(trips: map<Id, Trip>, user: UserId): map<Id, Trip> {
    map k | k in trips && trips[k].user == user :: trips[k]
  }

  function OwnTripItems(trips: map<Id, Trip>, items: map<Id, TripItem>, user: UserId): map<Id, TripItem> {
    map k | k in items && items[k].trip in trips && trips[items[k].trip].user == user :: items[k]
  }

  /** Other users' data never changes what a user's trip querysets answer. */
  lemma TripIsolation(trips: map<Id, Trip>, items: map<Id, TripItem>,
                      trips': map<Id, Trip>, items': map<Id, TripItem>, user: UserId, pk: int)
    requires OwnTrips(trips, user) == OwnTrips(trips', user)
    requires OwnTripItems(trips, items, user) == OwnTripItems(trips', items', user)
    ensures TripQueryset(trips, user) == TripQueryset(trips', user)
    ensures TripItemQueryset(trips, items, user, pk) == TripItemQueryset(trips', items', user, pk)
  {
    var own, own' := OwnTrips(trips, user), OwnTrips(trips', user);
    assert TripQueryset(trips, user) == own.Keys;
    assert TripQueryset(trips', user) == own'.Keys;
    if pk in trips && trips[pk].user == user {
      assert pk in own' && trips'[pk] == own'[pk] == own[pk] == trips[pk];
      var t := pk as Id;
      var ownItems, ownItems' := OwnTripItems(trips, items, user), OwnTripItems(trips', items', user);
      forall k | k in TripItemIds(items, t)
        ensures k in TripItemIds(items', t)
      {
        assert k in ownItems && items'[k] == ownItems'[k] == ownItems[k] == items[k];
      }
      forall k | k in TripItemIds(items', t)
        ensures k in TripItemIds(items, t)
      {
        assert k in ownItems' && items'[k] == ownItems'[k] == ownItems[k] == items[k];
      }
      assert TripItemIds(items, t) == TripItemIds(items', t);
    } else {
      assert pk !in own;
    }
  }

  // ---------------------------------------------------------------------
  // perform_create hooks: validation first, then the parent lookup

  /** The body of a new trip item is acceptable: a valid `name` and, when
      given, an existing `source_category` (any user's). */
  predicate TripItemBodyValid(p: TripItemPayload, categories: set<Id>) {
    ValidateCharField(p.name, ItemNameLength).Ok? && UpdateSource(None, p.sourceCategory, categories).Ok?
  }

  /** The row `TripItemListCreateView` creates: `serializer.save(trip=trip,
      is_custom=True)`, with `is_packed` defaulting to false, no trip
      category, and the read-only fields of the body ignored. */
  function CustomTripItem(trip: Id, p: TripItemPayload, categories: set<Id>, now: Timestamp): (r: Result<TripItem>)
    ensures r.Ok? <==> TripItemBodyValid(p, categories)
    ensures !r.NotFound?
    ensures r.Ok? ==> r.value.trip == trip && r.value.tripCategory.None? && r.value.isCustom && r.value.createdAt == now
    ensures r.Ok? ==> r.value.name == Trim(p.name.text) && ValidName(r.value.name, ItemNameLength)
    ensures r.Ok? ==> (r.value.isPacked <==> p.isPacked == Some(true))
    ensures r.Ok? ==> RefersInto(r.value.sourceCategory, categories)
    ensures r.Ok? ==> (r.value.sourceCategory.Some? <==> p.sourceCategory.RefTo?)
  {
    var name := ValidateCharField(p.name, ItemNameLength);
    var source := UpdateSource(None, p.sourceCategory, categories);
    if name.Invalid? then Invalid(name.error)
    else if source.Invalid? then Invalid(source.error)
    else Ok(TripItem(trip, None, name.value, p.isPacked.GetOr(false), true, source.value, now))
  }

  /** Whatever the body says about `is_custom`, the created item is custom. */
  lemma CreatedItemIsCustom(trip: Id, p: TripItemPayload, q: TripItemPayload, categories: set<Id>, now: Timestamp)
    requires p.name == q.name && p.isPacked == q.isPacked && p.sourceCategory == q.sourceCategory
    ensures CustomTripItem(trip, p, categories, now) == CustomTripItem(trip, q, categories, now)
  {
  }

  /** `POST /trips/<trip_pk>/items/`: 400 for a bad body (even on someone
      else's trip), 404 unless the trip is the user's, else one new row. */
  method TripItemCreate(db: Store, user: UserId, tripPk: int, p: TripItemPayload, now: Timestamp) returns (r: Result<Id>)
    requires db.Valid()
    modifies db
    ensures db.Valid()
    ensures r.Invalid? <==> !TripItemBodyValid(p, old(db.categories).Keys)
    ensures r.NotFound? <==> TripItemBodyValid(p, old(db.categories).Keys) && OwnedTrip(old(db.trips), user, tripPk).NotFound?
    ensures !r.Ok? ==> unchanged(db)
    ensures r.Ok? ==> (r.value !in old(db.tripItems) &&
      db.tripItems == old(db.tripItems)[r.value := CustomTripItem(tripPk, p, old(db.categories).Keys, now).value])
    ensures db.categories == old(db.categories) && db.categoryItems == old(db.categoryItems)
    ensures db.trips == old(db.trips) && db.tripCategories == old(db.tripCategories)
  {
    if !TripItemBodyValid(p, db.categories.Keys) {
      var v := CustomTripItem(0, p, db.categories.Keys, now);
      return Invalid(v.error);
    }
    var trip := OwnedTrip(db.trips, user, tripPk);
    if !trip.Ok? {
      return NotFound;
    }
    var item := CustomTripItem(trip.value, p, db.categories.Keys, now).value;
    var id := db.InsertTripItem(item);
    r := Ok(id);
  }

  /** The row `CategoryItemListCreateView` creates: `serializer.save(category=category)`. */
  function NewCategoryItem(category: Id, p: NamedPayload, now: Timestamp): (r: Result<CategoryItem>)
    ensures r.Ok? <==> ValidateCharField(p.name, ItemNameLength).Ok?
    ensures !r.NotFound?
    ensures r.Ok? ==> r.value.category == category && r.value.createdAt == now
    ensures r.Ok? ==> r.value.name == Trim(p.name.text) && ValidName(r.value.name, ItemNameLength)
  {
    var name := ValidateCharField(p.name, ItemNameLength);
    if name.Invalid? then Invalid(name.error) else Ok(CategoryItem(category, name.value, now))
  }

  /** `POST /categories/<category_pk>/items/`. */
  method CategoryItemCreate(db: Store, user: UserId, categoryPk: int, p: NamedPayload, now: Timestamp) returns (r: Result<Id>)
    requires db.Valid()
    modifies db
    ensures db.Valid()
    ensures r.Invalid? <==> ValidateCharField(p.name, ItemNameLength).Invalid?
    ensures r.NotFound? <==> ValidateCharField(p.name, ItemNameLength).Ok? && OwnedCategory(old(db.categories), user, categoryPk).NotFound?
    ensures !r.Ok? ==> unchanged(db)
    ensures r.Ok? ==> (r.value !in old(db.categoryItems) &&
      db.categoryItems == old(db.categoryItems)[r.value := NewCategoryItem(categoryPk, p, now).value])
    ensures db.categories == old(db.categories) && db.trips == old(db.trips)
    ensures db.tripCategories == old(db.tripCategories) && db.tripItems == old(db.tripItems)
  {
    var name := ValidateCharField(p.name, ItemNameLength);
    if name.Invalid? {
      return Invalid(name.error);
    }
    var category := OwnedCategory(db.categories, user, categoryPk);
    if !category.Ok? {
      return NotFound;
    }
    var id := db.InsertCategoryItem(NewCategoryItem(category.value, p, now).value);
    r := Ok(id);
  }

  // ---------------------------------------------------------------------
  // Trip-item update: lookup first, then validation

  /** `PUT`/`PATCH /trips/<trip_pk>/items/<pk>/`. */
  method TripItemUpdate(db: Store, user: UserId, tripPk: int, pk: int, p: TripItemPayload, partial: bool) returns (r: Result<Id>)
    requires db.Valid()
    modifies db
    ensures db.Valid()
    ensures r.NotFound? <==> Retrieve(TripItemQueryset(old(db.trips), old(db.tripItems), user, tripPk), pk).NotFound?
    ensures r.Invalid? <==> !r.NotFound? && UpdateTripItem(old(db.tripItems)[pk], p, partial, old(db.categories).Keys).Invalid?
    ensures !r.Ok? ==> unchanged(db)
    ensures r.Ok? ==> (r.value == pk &&
      db.tripItems == old(db.tripItems)[pk := UpdateTripItem(old(db.tripItems)[pk], p, partial, old(db.categories).Keys).value])
    ensures db.categories == old(db.categories) && db.categoryItems == old(db.categoryItems)
    ensures db.trips == old(db.trips) && db.tripCategories == old(db.tripCategories)
  {
    var found := Retrieve(TripItemQueryset(db.trips, db.tripItems, user, tripPk), pk);
    if !found.Ok? {
      return NotFound;
    }
    var updated := UpdateTripItem(db.tripItems[pk], p, partial, db.categories.Keys);
    if !updated.Ok? {
      return Invalid(updated.error);
    }
    db.SaveTripItem(pk, updated.value);
    r := Ok(pk);
  }

  /** `CategoryItemDetailView` DELETE: 404 unless the category is the user's
      and holds item `pk`; then that one row goes. */
  method CategoryItemDestroy(db: Store, user: UserId, categoryPk: int, pk: int) returns (r: Result<()>)
    requires db.Valid()
    modifies db
    ensures db.Valid()
    ensures r.Ok? <==> Retrieve(CategoryItemQueryset(old(db.categories), old(db.categoryItems), user, categoryPk), pk).Ok?
    ensures !r.Ok? ==> r.NotFound? && unchanged(db)
    ensures r.Ok? ==> db.categoryItems == old(db.categoryItems) - {pk as Id}
    ensures r.Ok? ==>
      pk in old(db.categoryItems) && old(db.categoryItems)[pk].category == categoryPk && old(db.categories)[categoryPk].user == user
    ensures db.categories == old(db.categories) && db.trips == old(db.trips)
    ensures db.tripCategories == old(db.tripCategories) && db.tripItems == old(db.tripItems)
  {
    var found := Retrieve(CategoryItemQueryset(db.categories, db.categoryItems, user, categoryPk), pk);
    if !found.Ok? {
      return NotFound;
    }
    db.DeleteCategoryItem(pk);
    r := Ok(());
  }

  /** `TripItemDetailView` DELETE: 404 unless the trip is the user's and
      holds item `pk`; then that one row goes. */
  method TripItemDestroy(db: Store, user: UserId, tripPk: int, pk: int) returns (r: Result<()>)
    requires db.Valid()
    modifies db
    ensures db.Valid()
    ensures r.Ok? <==> Retrieve(TripItemQueryset(old(db.trips), old(db.tripItems), user, tripPk), pk).Ok?
    ensures !r.Ok? ==> r.NotFound? && unchanged(db)
    ensures r.Ok? ==> db.tripItems == old(db.tripItems) - {pk as Id}
    ensures r.Ok? ==> pk in old(db.tripItems) && old(db.tripItems)[pk].trip == tripPk && old(db.trips)[tripPk].user == user
    ensures db.categories == old(db.categories) && db.categoryItems == old(db.categoryItems)
    ensures db.trips == old(db.trips) && db.tripCategories == old(db.tripCategories)
  {
    var found := Retrieve(TripItemQueryset(db.trips, db.tripItems, user, tripPk), pk);
    if !found.Ok? {
      return NotFound;
    }
    db.DeleteTripItem(pk);
    r := Ok(());
  }

  // ---------------------------------------------------------------------
  // TripItemAddToCategoryView.post

  const CategoryIdRequiredMessage := "category_id is required"
  const AlreadyInCategoryMessage := "Item already exists in this category"

  /** The outcome of promoting trip item `pk` of trip `tripPk` into category
      `categoryId` (`request.data.get("category_id")`, `None` when absent or
      null): the category to write into, or the refusal, decided in the
      view's order — trip, item, missing or falsy `category_id`, category,
      duplicate name. */
  function PromotionTarget(trips: map<Id, Trip>, tripItems: map<Id, TripItem>, categories: map<Id, Category>,
                           categoryItems: map<Id, CategoryItem>, user: UserId, tripPk: int, pk: int, categoryId: Option<int>): (r: Result<Id>)
    ensures r.Ok? <==>
      && tripPk in trips && trips[tripPk].user == user && pk in tripItems && tripItems[pk].trip == tripPk
      && categoryId.Some? && categoryId.value != 0 && categoryId.value in categories && categories[categoryId.value].user == user
      && !HasItemNamed(categoryItems, categoryId.value, tripItems[pk].name)
    ensures r.Ok? ==> r.value == categoryId.value
    ensures r == Invalid(CategoryIdRequiredMessage) <==>
      tripPk in trips && trips[tripPk].user == user && pk in tripItems && tripItems[pk].trip == tripPk &&
      (categoryId.None? || categoryId.value == 0)
    ensures r == Invalid(AlreadyInCategoryMessage) <==>
      && tripPk in trips && trips[tripPk].user == user && pk in tripItems && tripItems[pk].trip == tripPk
      && categoryId.Some? && categoryId.value != 0 && categoryId.value in categories && categories[categoryId.value].user == user
      && HasItemNamed(categoryItems, categoryId.value, tripItems[pk].name)
    ensures r.Invalid? ==> r == Invalid(CategoryIdRequiredMessage) || r == Invalid(AlreadyInCategoryMessage)
  {
    if !(tripPk in trips && trips[tripPk].user == user) then NotFound
    else if !(pk in tripItems && tripItems[pk].trip == tripPk) then NotFound
    else if categoryId.None? || categoryId.value == 0 then Invalid(CategoryIdRequiredMessage)
    else if !(categoryId.value in categories && categories[categoryId.value].user == user) then NotFound
    else if HasItemNamed(categoryItems, categoryId.value, tripItems[pk].name) then Invalid(AlreadyInCategoryMessage)
    else Ok(categoryId.value)
  }

  /** Promotion copies the item's name into a new row of the category and
      points the item's `source_category` at it; a refusal writes nothing. */
  method AddToCategory(db: Store, user: UserId, tripPk: int, pk: int, categoryId: Option<int>, now: Timestamp) returns (r: Result<Id>)
    requires db.Valid()
    modifies db
    ensures db.Valid()
    ensures var t := PromotionTarget(old(db.trips), old(db.tripItems), old(db.categories), old(db.categoryItems), user, tripPk, pk, categoryId);
      (r.Ok? <==> t.Ok?) && (!r.Ok? ==> r == t)
    ensures !r.Ok? ==> unchanged(db)
    ensures r.Ok? ==> pk in old(db.tripItems) && categoryId.Some? && categoryId.value in db.categories
    ensures r.Ok? ==> (r.value !in old(db.categoryItems) &&
      db.categoryItems == old(db.categoryItems)[r.value := CategoryItem(categoryId.value, old(db.tripItems)[pk].name, now)])
    ensures r.Ok? ==> db.tripItems == old(db.tripItems)[pk := old(db.tripItems)[pk].(sourceCategory := Some(categoryId.value))]
    ensures db.categories == old(db.categories) && db.trips == old(db.trips) && db.tripCategories == old(db.tripCategories)
  {
    var target := PromotionTarget(db.trips, db.tripItems, db.categories, db.categoryItems, user, tripPk, pk, categoryId);
    if !target.Ok? {
      return target;
    }
    var item := db.tripItems[pk];
    var id := db.InsertCategoryItem(CategoryItem(target.value, item.name, now));
    db.SaveTripItem(pk, item.(sourceCategory := Some(target.value)));
    r := Ok(id);
  }

  /** Promoting the same item into the same category a second time is
      refused as a duplicate. */
  lemma PromotionNotRepeated(trips: map<Id, Trip>, tripItems: map<Id, TripItem>, categories: map<Id, Category>,
                             categoryItems: map<Id, CategoryItem>, user: UserId, tripPk: int, pk: int, c: Id, id: Id, now: Timestamp)
    requires PromotionTarget(trips, tripItems, categories, categoryItems, user, tripPk, pk, Some(c)).Ok?
    ensures var items' := categoryItems[id := CategoryItem(c, tripItems[pk].name, now)];
      var tripItems' := tripItems[pk := tripItems[pk].(sourceCategory := Some(c))];
      PromotionTarget(trips, tripItems', categories, items', user, tripPk, pk, Some(c)) == Invalid(AlreadyInCategoryMessage)
  {
    var items' := categoryItems[id := CategoryItem(c, tripItems[pk].name, now)];
    assert items'[id].category == c && items'[id].name == tripItems[pk].name;
  }

  /** The view does not look at `is_custom`: a snapshot item can be promoted
      like a custom one. */
  lemma PromotionIgnoresCustomFlag(trips: map<Id, Trip>, tripItems: map<Id, TripItem>, categories: map<Id, Category>,
                                   categoryItems: map<Id, CategoryItem>, user: UserId, tripPk: int, pk: Id, categoryId: Option<int>, custom: bool)
    requires pk in tripItems
    ensures PromotionTarget(trips, tripItems[pk := tripItems[pk].(isCustom := custom)], categories, categoryItems, user, tripPk, pk, categoryId)
         == PromotionTarget(trips, tripItems, categories, categoryItems, user, tripPk, pk, categoryId)
  {
  }
}

