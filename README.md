# Packing app core, modelled in Dafny

A personal packing-list manager (Django). A user keeps reusable
**categories** of **category items**. A **trip** is created by taking a
snapshot of chosen categories: each becomes a **trip category** that keeps
its own copy of the category's name, and each category item becomes a
**trip item** of that trip. Items added to a trip later are *custom* items.
A custom item can be *promoted* back into a category. Categories and items
can be imported in bulk from rows of (category, item) names. People log in
through an OpenID Connect provider, whose `groups` claim decides the staff
and superuser flags.

The model replaces the database with an in-memory `Store`. It holds one map
per table, from id to record, plus a counter that hands out fresh ids. On
top of that store the model has:

- the page and API handlers in the table below, as methods over the store,
  each with its error outcomes (`Ok`, `NotFound`, `Invalid`);
- the serializer rules as pure functions;
- the import's grouping as a loop, proved equal to a first-occurrence
  description;
- the OIDC backend as a `User` class and a `UserTable` class;
- the startup guard as a small class.

Modules:

- `Common` (`common.dfy`): `Option`, `Result`, sequence helpers (`Elements`, `Distinct`, `CountIn`, `Dedup`)
- `Models` (`models.dfy`): core/models.py: records, defaults, `Trip.progress`, the `Store` with inserts, saves and the on-delete rules
- `Serializers` (`serializers.dfy`): core/api/serializers.py: DRF `CharField` rules, the import payload, the update serializers and their read-only fields
- `ImportGrouping` (`grouping.dfy`): the grouping half of `CategoryImportView.post`
- `ApiViews` (`api_views.dfy`): core/api/views.py: the import writes, querysets, `perform_create`, trip-item update, promotion
- `TripViews` (`trip_views.dfy`): core/views.py: dashboard counts, `trip_create`, `trip_complete`, `trip_delete`
- `Oidc` (`oidc.dfy`): accounts/oidc.py
- `Apps` (`apps.dfy`): core/apps.py

Request inputs, the clock (`now`, the value of every `auto_now_add`
column) and the settings (`OIDC_ADMIN_GROUP`, `OIDC_STAFF_GROUP`) are
parameters.

## Model

| member | source | states |
|---|---|---|
| `Models.ProgressOf` | core/models.py:50-57 | `total` is the number of the trip's items and `packed` the number packed. So packed ≤ total, the percentage lies in 0..100, it is 0 for a trip with no items, and otherwise it is within half a point of 100·packed/total. |
| `Models.RoundHalfEven` | core/models.py:56 | The result is a nearest integer to n/d; an exact tie goes to the even neighbour, as Python's `round` does. |
| `Models.ProgressOfEmptyTrip` | core/models.py:56 | A trip with no items has progress (0, 0, 0). |
| `Models.ProgressAllPacked` | core/models.py:56 | A non-empty trip whose every item is packed is at 100%. |
| `Models.ProgressTwoOfFour` | core/tests.py:61-78 | Four items with two packed give packed 2, total 4, percentage 50. |
| `Models.NearestOfExact` | core/models.py:56 | When 100·packed/total is a whole number, the rounded percentage is exactly that number. |
| `Models.Store.InsertCategory` | core/models.py:5-10 | `objects.create`: the row goes in under a fresh id, the counter moves on, and other tables are unchanged. |
| `Models.Store.InsertCategoryItem` | core/models.py:20-27 | Same for a category item, whose category must exist (foreign key). |
| `Models.Store.InsertTrip` | core/models.py:36-42 | Same for a trip. |
| `Models.Store.InsertTripCategory` | core/models.py:60-73 | Same for a trip category, whose trip must exist and whose category is null or exists. |
| `Models.Store.InsertTripItem` | core/models.py:82-104 | Same for a trip item, with all three references closed. |
| `Models.Store.SaveTrip` | core/models.py:36-42 | `save()`: one trip row is replaced and nothing else changes. |
| `Models.Store.SaveTripItem` | core/models.py:82-104 | `save()`: one trip-item row is replaced and nothing else changes. |
| `Models.Store.DeleteCategory` | core/models.py:20-103 | The category's items go (CASCADE). Every trip category and trip item stays, with its reference to the category set to null (SET_NULL). `category_name` is kept and the store stays referentially closed. |
| `Models.Store.DeleteTripCategory` | core/models.py:86-92 | The trip category goes. Its items stay, with `trip_category` null, and nothing else changes. |
| `Models.Store.DeleteCategoryItem` | core/models.py:20-27 | Exactly that category item goes; no other table refers to it, so nothing else changes. |
| `Models.Store.DeleteTripItem` | core/models.py:82-104 | Exactly that trip item goes; no other table refers to it, so nothing else changes. |
| `Models.Store.DeleteTrip` | core/models.py:60-92 | The trip goes, with exactly its trip categories and trip items (CASCADE). Other trips' rows stay. |
| `Serializers.TrimIsSlice` | core/api/views.py:146-147 | `strip()` removes whitespace runs at both ends only: the result is a slice of the input with whitespace before and after it. |
| `Serializers.TrimIdempotent` | core/api/views.py:146-147 | Stripping twice is stripping once. |
| `Serializers.TrimEmptyIffAllSpace` | core/api/serializers.py:9-10 | The stripped value is empty exactly when the input is all whitespace. |
| `Serializers.ValidateCharField` | core/api/serializers.py:9-10 | A required `CharField`: accepted iff a string is given whose stripped value is non-blank, within `max_length` and free of null characters. The accepted value is the stripped one. An absent field gives "required", a null gives "may not be null", and a short non-blank value with a null character gives "Null characters are not allowed.". |
| `Serializers.NullCharacterRefused` | core/api/serializers.py:9-10 | A value with a null character anywhere is refused, since stripping never removes one. |
| `Serializers.BlankRefused` | core/api/serializers.py:9-10 | A whitespace-only value is refused as blank, whatever its length. |
| `Serializers.ValidatedIsStable` | core/api/serializers.py:9-10 | An accepted value is accepted again unchanged. |
| `Serializers.ValidateImportRow` | core/api/serializers.py:6-10 | A row is accepted iff both `category` and `item` are valid `CharField(max_length=100)` values. The result holds the stripped names. |
| `Serializers.ValidateImportRows` | core/api/serializers.py:16 | The list is accepted iff every row is. The result has one validated row per input row, in order. |
| `Serializers.ValidateImport` | core/api/serializers.py:13-22 | The body is accepted iff `items` is a non-empty list of valid rows; an empty list gives "At least one item is required." |
| `Serializers.ImportedNamesValid` | core/api/serializers.py:9-10 | Every accepted name is non-blank, at most 100 characters and already stripped. |
| `Serializers.UpdateName` | core/api/serializers.py:25-31 | PATCH without the field keeps the current value; otherwise the field is validated as on create. |
| `Serializers.UpdatedNameValid` | core/api/serializers.py:25-42 | The name an accepted update writes is the current one when a PATCH omits it, and otherwise the stripped body value, which is non-blank, within the length limit, free of surrounding whitespace and of null characters. |
| `Serializers.UpdateSource` | core/api/serializers.py:54-62 | `source_category` is kept when absent, cleared by null, and set to any existing category's id; any other id is refused. |
| `Serializers.UpdateTripItem` | core/api/serializers.py:45-63 | An update succeeds iff name and source are acceptable. It changes only `name`, `is_packed` and `source_category`. |
| `Serializers.TripItemReadOnlyIgnored` | core/api/serializers.py:63 | What a body says about `id`, `is_custom`, `category_name` or `created_at` does not affect the update. |
| `Serializers.TripItemUpdateKeepsOrigin` | core/api/serializers.py:63 | An accepted update keeps `is_custom`, the trip, the trip category and `created_at`. |
| `Serializers.EmptyPatchIsIdentity` | core/api/serializers.py:45-63 | An empty PATCH returns the item unchanged. |
| `Serializers.PutNeedsName` | core/api/serializers.py:45-63 | A PUT without `name` is refused as required. |
| `Serializers.UpdateTrip` | core/api/serializers.py:77-93 | A trip update changes only `name` and `is_complete`; it is accepted iff `UpdateName` accepts the name (within 200 characters), and the name written is the one `UpdateName` returns. |
| `Serializers.TripReadOnlyIgnored` | core/api/serializers.py:81-93 | `id`, `progress` and `created_at` in a trip body have no effect. |
| `Serializers.UpdateCategoryItem` | core/api/serializers.py:25-31 | A category-item update changes only `name`; it is accepted iff `UpdateName` accepts the name (within 200 characters), and the name written is the one `UpdateName` returns. |
| `Serializers.UpdateCategory` | core/api/serializers.py:34-42 | A category update changes only `name`; it is accepted iff `UpdateName` accepts the name (within 100 characters), and the name written is the one `UpdateName` returns. |
| `Serializers.CategoryItemReadOnlyIgnored` | core/api/serializers.py:31 | `id` and `created_at` in a category-item body have no effect. |
| `Serializers.ExposedCategoryName` | core/api/serializers.py:48-50 | `category_name` is the trip category's `category_name`, or null when the item has no trip category. |
| `Serializers.ExposedNameSurvivesCategoryDeletion` | core/models.py:73 | Clearing the category references (a category deletion) does not change any item's exposed `category_name`. |
| `Common.Dedup` | core/api/views.py:148-151 | First occurrences: the same elements as the input, with no repeats. |
| `Common.DedupKeepsFirstOrder` | core/api/views.py:148-151 | The kept elements are in the order of their first occurrences in the input. |
| `Common.DedupOfDistinct` | core/api/views.py:150-151 | A sequence without repeats is its own first occurrences. |
| `ImportGrouping.Stripped` | core/api/views.py:146-147 | Each row's category and item, stripped, in row order. What makes it worth having is `StripAgainIsIdentity` below. |
| `ImportGrouping.StripAgainIsIdentity` | core/api/views.py:146-147 | The view's `strip()` changes nothing on rows the serializer accepted. |
| `ImportGrouping.GroupRows` | core/api/views.py:144-151 | The loop builds exactly `Grouped(rows)`, the row-by-row definition of `categories_map`. |
| `ImportGrouping.GroupedIsFirstOccurrences` | core/api/views.py:144-151 | Category names are in first-seen order without repeats. Each category's items are the first occurrences of the items of its rows. |
| `ImportGrouping.GroupedWellFormed` | core/api/views.py:144-151 | The order lists each key of the map exactly once, and no item list repeats a name. |
| `ImportGrouping.GroupedPairs` | core/api/views.py:144-151 | A (category, item) pair occurs in the rows iff the grouping lists that item under that category. |
| `ImportGrouping.PairCountIsDistinctPairs` | core/api/views.py:170-177 | The grouping lists as many items, over all categories, as there are distinct pairs in the rows. |
| `ApiViews.GetOrCreateCategory` | core/api/views.py:161-165 | Creates a category iff the user has none with the name; otherwise it reuses that one. The category table grows by one row exactly when it creates one. Names stay unique per user. |
| `ApiViews.ImportItems` | core/api/views.py:167-177 | Names already in the category are skipped. Each other name gets exactly one new row, created once even if listed twice. Every new row is stamped with the request time and is the only row of its (category, name) pair, a pair absent before, and the table grows by `created` rows. `skipped` counts names that were present before, and created + skipped is the number of names. |
| `ApiViews.ItemsAddedFresh` | core/api/views.py:167-177 | Rows added for names the category did not hold are each stamped with the request time and the only row of their (category, name) pair, and that pair had no row before. |
| `ApiViews.FreshRowsTrans` | core/api/views.py:153-177 | Two rounds of such additions compose: every new row carries the request time and no pair ever gets a second row. |
| `ApiViews.GrownTrans` | core/api/views.py:153-177 | Table growth composes: the row counts add up, and no pair gets a second row. |
| `ApiViews.CategoryImportedIntro` | core/api/views.py:159-177 | Get-or-create followed by the item loop amounts to `CategoryImported`: the user now owns the name (created iff not owned before), its items are the old ones plus the listed ones, no other name's items change, and the counters say which names existed. |
| `ApiViews.ImportCategory` | core/api/views.py:159-177 | One category name: `CategoryImported` as above, and `Grown`: the category table grows by one row iff the category was created, the item table by `made` rows, each stamped with the request time and the only row of its (category, name) pair. |
| `ApiViews.ImportNextStep` | core/api/views.py:153-177 | One more category name extends the loop's progress facts (categories added, items per name), and its counters measured against the tables before the whole import. |
| `ApiViews.ImportNext` | core/api/views.py:153-177 | One turn of the import loop: the facts of `ImportNextStep` for the writes it makes, and the growth of both tables by what it reports. |
| `ApiViews.ImportStateStep` | core/api/views.py:153-177 | The loop state (progress, the four counters, and table growth equal to the counters of created rows) carries over one turn. |
| `ApiViews.ImportLoop` | core/api/views.py:153-177 | Over all category names: the progress facts, the four counters against the tables before the import, and growth of the category table by `categories_created` rows and of the item table by `items_created` rows, each new row stamped with the request time and no (category, name) pair getting two rows. |
| `ApiViews.WriteImport` | core/api/views.py:153-187 | created + existing is the number of distinct category names, and `existing` the number already owned. Items created + skipped is the number of distinct pairs, and `skipped` the number already present. Every listed pair is afterwards an item of the user's category of that name. The category table grows by exactly `categories_created` rows and the item table by exactly `items_created`, each new item stamped with the request time and the only row of its (category, name) pair. |
| `ApiViews.ParseImport` | core/api/views.py:137-151 | Invalid exactly when the serializer refuses the body, with its message. Otherwise it returns the grouping of the validated rows. |
| `ApiViews.ImportMeaning` | core/api/views.py:144-187 | The counters in terms of the rows: distinct category names, distinct pairs, and listed iff the pair occurs. |
| `ApiViews.CategoryImport` | core/api/views.py:136-187 | A refused body writes nothing. An accepted one is written whole, with the counts and writes of `WriteImport`, including the growth of the tables by the reported `categories_created` and `items_created`, every new item stamped with the request time, and no duplicate (category, name) rows. |
| `ApiViews.OwnedCategory` | core/api/views.py:35-37 | `get_object_or_404(Category, pk, user)`: Ok iff the category exists and is the user's, else NotFound. |
| `ApiViews.OwnedTrip` | core/api/views.py:77 | `get_object_or_404(Trip, pk, user)`: Ok iff the trip exists and is the user's, else NotFound. |
| `ApiViews.CategoryQueryset` | core/api/views.py:24-25 | Exactly the user's categories. |
| `ApiViews.TripQueryset` | core/api/views.py:66-67 | Exactly the user's trips. |
| `ApiViews.CategoryItemQueryset` | core/api/views.py:34-38 | NotFound unless the category is the user's; then exactly that category's items, all of them the user's. |
| `ApiViews.TripItemQueryset` | core/api/views.py:76-78 | NotFound unless the trip is the user's; then exactly that trip's items. |
| `ApiViews.Retrieve` | core/api/views.py:91-93 | A detail view finds `pk` iff the queryset holds it; otherwise it answers like the queryset, or NotFound. It is the lookup whose meaning `TripItemUpdate` and the two destroy methods state. |
| `ApiViews.ForeignLooksMissing` | core/api/views.py:34-38 | Someone else's category or trip answers exactly as one that does not exist. |
| `ApiViews.CategoryIsolation` | core/api/views.py:24-57 | Two stores that agree on a user's categories and their items answer all of the user's category querysets alike. |
| `ApiViews.TripIsolation` | core/api/views.py:66-93 | The same for trips and trip items. |
| `ApiViews.CustomTripItem` | core/api/views.py:80-82 | The created row belongs to the URL's trip and has no trip category. It is custom and stripped, packed only if the body says so, and its source is an existing category. |
| `ApiViews.CreatedItemIsCustom` | core/api/views.py:82 | The body's `is_custom` (and the other read-only fields) cannot change the created row. |
| `ApiViews.TripItemCreate` | core/api/views.py:80-82 | Invalid iff the body is refused, checked first. NotFound iff the body is fine but the trip is not the user's. Otherwise it adds exactly one custom row. A failure changes nothing. |
| `ApiViews.NewCategoryItem` | core/api/views.py:44 | The created row is in the URL's category, with the stripped name. |
| `ApiViews.CategoryItemCreate` | core/api/views.py:40-44 | Invalid iff the name is refused. NotFound iff the category is not the user's. Otherwise it adds exactly one row to that category. |
| `ApiViews.CategoryItemDestroy` | core/api/views.py:47-57 | DELETE: NotFound, changing nothing, unless the category is the user's and holds the item. Otherwise exactly that category item goes, and it was in the user's category. |
| `ApiViews.TripItemDestroy` | core/api/views.py:85-93 | DELETE: NotFound, changing nothing, unless the trip is the user's and holds the item. Otherwise exactly that trip item goes, and it was in the user's trip. |
| `ApiViews.TripItemUpdate` | core/api/views.py:85-93 | Lookup first, so a foreign trip or item is NotFound. Then validation. On success exactly that trip item is replaced by `UpdateTripItem` of it. |
| `ApiViews.PromotionTarget` | core/api/views.py:101-119 | Ok iff the trip is the user's, the item is that trip's, `category_id` is given and not 0, the category is the user's and holds no item of that name. It answers "category_id is required" and "Item already exists in this category" exactly in their cases, and NotFound otherwise. |
| `ApiViews.AddToCategory` | core/api/views.py:101-128 | On success it adds exactly one category item, named as the trip item, and sets only that trip item's `source_category`. A refusal changes nothing. |
| `ApiViews.PromotionNotRepeated` | core/api/views.py:114-122 | Repeating a successful promotion is refused as a duplicate. |
| `ApiViews.PromotionIgnoresCustomFlag` | core/api/views.py:101-128 | `is_custom` plays no part in whether or where an item is promoted. |
| `TripViews.Dashboard` | core/views.py:13-24 | `total_trips`, `total_categories` and `total_active` count exactly the user's trips, the user's categories and the user's incomplete trips; active ≤ total. |
| `TripViews.TripListPartition` | core/views.py:58-60 | Active and completed trips split the user's trips, disjointly, so their counts add up to the number of the user's trips. |
| `TripViews.DashboardIgnoresOthers` | core/views.py:13-16 | Another user's trip or category does not change the dashboard. |
| `TripViews.DashboardShowsOwnDataOnly` | core/tests.py:96-110 | One trip and one category for each of two users: each count is 1. |
| `TripViews.TemplateFor` | core/views.py:72-75 | The template is used iff it exists and is the user's trip; anything else counts as no template. `CopyTemplate` and `TripCreate` state what it means for the rows. |
| `TripViews.SnapshotItems` | core/views.py:95-101 | One new trip item per item of the category, each named like it, under the new trip category, sourced from the category, not packed and not custom. No other row changes. |
| `TripViews.SnapshotCategory` | core/views.py:89-101 | One new trip category carrying the category's current name, then its item snapshot. |
| `TripViews.SnapshotCategories` | core/views.py:87-101 | Exactly one trip category per selected category, and one trip item per item of each. |
| `TripViews.SelectedCount` | core/views.py:88-101 | For distinct categories, the snapshot rows number the sum of the categories' item counts. |
| `TripViews.CopyCustomItems` | core/views.py:104-112 | One new custom item per custom item of the template, with no trip category and the original's name and source. No other rows are added, and non-custom items are not copied. |
| `TripViews.CopyTemplate` | core/views.py:103-112 | The custom items of the template if there is one, else nothing. |
| `TripViews.TripCreate` | core/views.py:80-112 | A new, incomplete trip, the snapshot rows above and the template's custom copies, and no other row. Existing rows are unchanged. The trip's item count is the sum of the categories' item counts plus the template's custom items. |
| `TripViews.TemplateUnaffected` | core/views.py:104-105 | The snapshot rows do not change which items of another trip are custom. |
| `TripViews.TripRowsJoin` | core/views.py:88-112 | The two rounds of copies together: the trip's rows are exactly the targets of both, none shared, as many as their sources. |
| `TripViews.TripCreatePost` | core/views.py:77-117 | Invalid, writing nothing, iff the stripped name is blank, over 200 characters or holds a null character, or a chosen category is not the user's. Otherwise the facts of `TripCreate`: one trip category per distinct chosen category, carrying its current name and belonging to the new trip, one trip item per item of those categories, one custom copy per custom item of the template; existing trip items are kept, and the trip's items are exactly the new rows, as many as `item_count`. |
| `TripViews.SnapshotCategoriesOfTrip` | core/views.py:87-101 | Every trip category the snapshot adds belongs to the new trip. |
| `TripViews.TripComplete` | core/views.py:162-173 | On POST it flips `is_complete` of the user's trip and changes nothing else. On any other request it changes nothing. A foreign or missing trip is NotFound. |
| `TripViews.TripCompleteTwice` | core/views.py:167-169 | Two toggles restore the trips. |
| `TripViews.TripDelete` | core/views.py:176-187 | On POST it removes the trip and exactly its trip categories and items. Every other row stays with its contents, except that an item's link to a deleted trip category is cleared. Other requests change nothing. A foreign or missing trip is NotFound. |
| `Oidc.AdminGroup` | accounts/oidc.py:121 | The admin group is the setting, or "admin" when it is not set. `RolesFor` and `LeavingGroupsRevokes` state what it decides. |
| `Oidc.StaffGroup` | accounts/oidc.py:122 | The staff group is the setting, or "staff" when it is not set. `RolesFor` and `LeavingGroupsRevokes` state what it decides. |
| `Oidc.GroupNames` | accounts/oidc.py:117-119 | An absent claim, or one that is not a list, counts as no groups. `RolesOnlyFromGroups` and `LeavingGroupsRevokes` are stated over it. |
| `Oidc.RolesFor` | accounts/oidc.py:117-128 | Superuser iff the admin group is listed. Staff iff the staff or the admin group is listed, so superuser implies staff. No list means neither flag. |
| `Oidc.RolesOnlyFromGroups` | accounts/oidc.py:117-128 | The flags depend on the groups and the settings only. |
| `Oidc.LoginName` | accounts/oidc.py:41-44 | A username is there iff `preferred_username` is present and non-empty. `CreatedRow`, `CreatedIsUpToDate` and `CreatedRowHasRoles` build on it. |
| `Oidc.CreatedRow` | accounts/oidc.py:62-76 | There is a row to create iff there is a username. Email and names default to "", and neither flag is set. |
| `Oidc.CreatedAccount` | accounts/oidc.py:71-82 | The returned user is that row with the flags of its groups. |
| `Oidc.UpdatedAccount` | accounts/oidc.py:97-105 | A present claim overwrites email or a name and an absent one keeps it. Both flags are recomputed from the groups. |
| `Oidc.UpdateIdempotent` | accounts/oidc.py:84-107 | A second login with the same claims changes nothing. |
| `Oidc.UpdateDiscardsFlags` | accounts/oidc.py:124-128 | Flags set before a login have no effect on its result. |
| `Oidc.CreatedIsUpToDate` | accounts/oidc.py:62-107 | Updating a just-created user with the same claims changes nothing. |
| `Oidc.LeavingGroupsRevokes` | accounts/oidc.py:124-128 | Without either group in the claim, both flags are off after the login. |
| `Oidc.User.SyncGroups` | accounts/oidc.py:109-128 | `_sync_groups` assigns exactly the two flags, from `RolesFor`. |
| `Oidc.UserTable.Lookup` | accounts/oidc.py:41-50 | The stored user whose username is the claim, if there is one. |
| `Oidc.UserTable.FilterUsersByClaims` | accounts/oidc.py:31-50 | At most one user, present iff the lookup finds one, loaded from its row. |
| `Oidc.UserTable.Save` | accounts/oidc.py:105 | `save()` writes the object's fields as its row. |
| `Oidc.UserTable.Insert` | accounts/oidc.py:71-76 | `create_user` stores the row and returns a new object equal to it. |
| `Oidc.UserTable.CreateUserAsWritten` | accounts/oidc.py:52-82 | No username gives None and no row. Otherwise the returned user has the synced flags, while the stored row keeps both flags false. |
| `Oidc.UserTable.CreateUser` | accounts/oidc.py:52-82 | As above, with a save after the sync, so the stored row equals the returned user. |
| `Oidc.UserTable.UpdateUser` | accounts/oidc.py:84-107 | The user becomes `UpdatedAccount` of itself, and that is what is stored. |
| `Oidc.FirstLoginFlagsLost` | accounts/oidc.py:71-79 | An admin's first login as written: the returned user is superuser and staff, and the stored row is neither. |
| `Oidc.CreatedRowHasRoles` | accounts/oidc.py:71-79 | With the save, the stored row carries the flags of the groups and is up to date. |
| `Apps.MaskSecret` | core/apps.py:66-83 | Empty gives "(not configured)" and 1 to 6 characters give "***". A longer secret gives its first 3 characters, then "***", then its last 3: nine characters in all. `MaskRevealsOnlyEnds` and `NotConfiguredIffEmpty` state what the mask gives away. |
| `Apps.MaskRevealsOnlyEnds` | core/apps.py:79-83 | Secrets that agree on their first and last three characters mask alike; so do any two short ones. The mask shows nothing else, and not the length. |
| `Apps.NotConfiguredIffEmpty` | core/apps.py:79-80 | "(not configured)" appears exactly for an empty secret. |
| `Apps.Startup.constructor` | core/apps.py:9 | The flag starts down, with nothing logged. |
| `Apps.Startup.Ready` | core/apps.py:18-24 | After any `ready()` the flag is up and the configuration has been logged exactly once. A later call logs nothing. |
| `Apps.Startup.LogStartupConfig` | core/apps.py:26-64 | One more logging and nothing else. |

## Where the model follows the code

- The trip form refuses a category id that is not one of the user's, so the
  whole form is invalid and nothing is written (core/forms.py:38-41 with
  core/views.py:78-79). The ids are not filtered silently.
  `TripCreatePost` models this refusal. `TripCreate` is the form-valid path:
  it takes distinct categories of the user's.
- Promotion checks `category_id` before looking the category up, so a
  missing `category_id` is a validation error even when the item would
  otherwise be found. A category id of 0 counts as missing.
- Promotion does not look at `is_custom`: a snapshot item can be promoted
  too (`PromotionIgnoresCustomFlag`).
- The `source_category` of a trip item accepts any user's category. The
  serializer's field is not scoped to the owner, and an id that does
  not exist is refused (`UpdateSource`).
- Creating an item checks the body before the parent lookup, so a bad body
  on someone else's trip answers Invalid. Updating looks the item up before
  validating, so it answers NotFound.

## Left out

- The ORM, HTTP, templates, flash messages and redirects. Handlers return a
  `Result` whose cases stand for the status codes. Rendered pages, the
  dashboard's five most recent trips and `trip_detail` are not modelled.
- `transaction.atomic`, and the get-or-create race between concurrent
  requests: every operation is one sequential method. An import that fails
  writes nothing because validation comes before any write.
- `UniqueNames` (at most one category of a user per name) is a precondition
  of the import. `get_or_create` raises `MultipleObjectsReturned` otherwise.
  Other ways of creating categories do not check it.
- Floating point in `progress`. The percentage is the exact rational
  100·packed/total rounded half to even. Python rounds the float
  `packed / total * 100`, which can differ by its rounding error at exact ties.
- Ordering clauses of the models. Selected categories, a category's items and
  a template's custom items are taken in any order. The import follows the
  order of its rows.
- A single id counter serves all tables (the database has one sequence per
  table); no property compares ids across tables.
- Request parsing: JSON types other than strings and null for names,
  numeric strings for ids, `BooleanField`'s string forms, and a non-integer
  `category_id` (which raises in the view). Ids arrive as integers and
  booleans as booleans.
- DRF's refusal of surrogate characters in a `CharField`: a Dafny `char` is
  a Unicode scalar value, so a string here never holds one.
- DRF error bodies are collapsed into a single message per refusal. Django
  forms' error texts are replaced by `FormRefused`.
- The GET branch of `trip_create`, which pre-selects the template's
  categories in the form, and `trip_list` rendering (only its split into
  active and completed trips is modelled).
- The category-list and category-detail pages, and the generic
  retrieve/update views other than the trip-item update. Their querysets
  are modelled, and so are the update functions for trips, categories and
  category items. The destroy of a category or a trip through the API is
  `Store.DeleteCategory` or `Store.DeleteTrip` of a row of
  `CategoryQueryset` or `TripQueryset`, with no method of its own. The
  destroy of a category item or a trip item is `CategoryItemDestroy` or
  `TripItemDestroy`.
- The deletion of a user (CASCADE from the user table) and the user table's
  other columns.
- `Oidc.UserTable.CreateUser`: a username that is already taken is a
  precondition. `create_user` would raise an integrity error, and the
  library only calls it when no user matched.
- A claim present with a null value: claims are modelled as present strings
  or absent. The normalisation that `create_user` applies is not modelled:
  it lower-cases the email's domain and applies Unicode NFKC to the username.
- `Oidc.CreatedRow` and `Oidc.UserTable.CreateUser` store the username as
  the claim gives it. Django stores its NFKC normal form, so two claims that
  differ only in compatibility characters would reach the same stored
  username there and different ones here.
- The library's authentication flow: token exchange, userinfo, password
  hashing. Which of `create_user` and `update_user` runs is the caller's
  choice.
- The log lines of `_log_startup_config` and of the backend: only the
  run-once flag and how often logging happens are kept.
- accounts/views.py, accounts/urls.py, accounts/context_processors.py,
  core/admin.py and the URL confs are not part of this model.

## Findings

| source | as written | input that shows it | evidently intended | confidence | as-written member | corrected member |
|---|---|---|---|---|---|---|
| accounts/oidc.py:71-79 | `create_user` stores the row through `User.objects.create_user`, then sets the flags with `_sync_groups` and returns without saving. The flags reach only the in-memory object. | First login with `preferred_username` "alice" and `groups` ["admin"], default settings: the stored row has `is_staff` and `is_superuser` false. | The stored user carries the flags of its groups from the first login, as `update_user` does with its `save()`. | medium; not executed; depends on the login flow saving only `last_login` afterwards | `Oidc.UserTable.CreateUserAsWritten` (`Oidc.FirstLoginFlagsLost`) | `Oidc.UserTable.CreateUser` (`Oidc.CreatedRowHasRoles`) |
