/** The write surface of the REST API (core/api/serializers.py): the field
    rules Django REST framework applies to the request bodies, the import
    payload with its non-empty rule, and the update serializers whose
    read-only fields a request cannot change.

    Every string field here is a DRF `CharField` with the framework defaults:
    surrounding whitespace is trimmed (Python's `str.strip`), a blank value is
    refused, and `max_length` is checked on the trimmed value. */
module Serializers {
  import opened Common
  import opened Models

  // ---------------------------------------------------------------------
  // Python's str.strip()

  /** The characters `str.isspace` accepts, the ones `str.strip()` removes. */
  predicate IsSpace(c: char) {
    var n := c as int;
    || (0x09 <= n <= 0x0d) || (0x1c <= n <= 0x20) || n == 0x85 || n == 0xa0 || n == 0x1680
    || (0x2000 <= n <= 0x200a) || n == 0x2028 || n == 0x2029 || n == 0x202f || n == 0x205f || n == 0x3000
  }

  predicate AllSpace(s: string) {
    forall k :: 0 <= k < |s| ==> IsSpace(s[k])
  }

  /** `s` without its leading whitespace: a suffix of `s` that is empty or
      starts with a non-space. */
  function TrimStart(s: string): (r: string)
    ensures |r| <= |s| && r == s[|s| - |r|..]
    ensures r == [] || !IsSpace(r[0])
  {
    if s != [] && IsSpace(s[0]) then TrimStart(s[1..]) else s
  }

  /** `s` without its trailing whitespace: a prefix of `s` that is empty or
      ends with a non-space. */
  function TrimEnd(s: string): (r: string)
    ensures |r| <= |s| && r == s[..|r|]
    ensures r == [] || !IsSpace(r[|r| - 1])
  {
    if s != [] && IsSpace(s[|s| - 1]) then TrimEnd(s[..|s| - 1]) else s
  }

  /** `str.strip()`: neither starts nor ends with whitespace. */
  function Trim(s: string): (r: string)
    ensures |r| <= |s|
    ensures r == [] || (!IsSpace(r[0]) && !IsSpace(r[|r| - 1]))
  {
    TrimEnd(TrimStart(s))
  }

  /** What `TrimStart` drops is whitespace. */
  lemma {:induction false} TrimStartDropsSpace(s: string)
    ensures AllSpace(s[..|s| - |TrimStart(s)|])
  {
    if s != [] && IsSpace(s[0]) {
      TrimStartDropsSpace(s[1..]);
      var n := |s| - |TrimStart(s)|;
      forall k | 0 <= k < n
        ensures IsSpace(s[..n][k])
      {
        if k > 0 {
          assert s[..n][k] == s[1..][..n - 1][k - 1];
        }
      }
    }
  }

  /** What `TrimEnd` drops is whitespace. */
  lemma {:induction false} TrimEndDropsSpace(s: string)
    ensures AllSpace(s[|TrimEnd(s)|..])
  {
    if s != [] && IsSpace(s[|s| - 1]) {
      TrimEndDropsSpace(s[..|s| - 1]);
      var n := |TrimEnd(s)|;
      forall k | 0 <= k < |s| - n
        ensures IsSpace(s[n..][k])
      {
        if k < |s| - n - 1 {
          assert s[n..][k] == s[..|s| - 1][n..][k];
        }
      }
    }
  }

  /** `Trim(s)` is the slice of `s` between a whitespace prefix and a
      whitespace suffix. */
  lemma TrimIsSlice(s: string)
    ensures exists i, j :: 0 <= i <= j <= |s| && Trim(s) == s[i..j] && AllSpace(s[..i]) && AllSpace(s[j..])
  {
    var t := TrimStart(s);
    var r := TrimEnd(t);
    var i := |s| - |t|;
    TrimStartDropsSpace(s);
    TrimEndDropsSpace(t);
    assert r == s[i..i + |r|];
    assert s[i + |r|..] == t[|r|..];
  }

  lemma TrimStartOfTrimmed(s: string)
    requires s == [] || !IsSpace(s[0])
    ensures TrimStart(s) == s
  {
  }

  lemma TrimEndOfTrimmed(s: string)
    requires s == [] || !IsSpace(s[|s| - 1])
    ensures TrimEnd(s) == s
  {
  }

  /** A validated name is left as it is by another strip. */
  lemma TrimOfValidName(s: string, maxLength: nat)
    requires ValidName(s, maxLength)
    ensures Trim(s) == s
  {
    TrimStartOfTrimmed(s);
    TrimEndOfTrimmed(s);
  }

  /** Stripping twice is stripping once, so the view's own `.strip()` of an
      already trimmed field changes nothing. */
  lemma TrimIdempotent(s: string)
    ensures Trim(Trim(s)) == Trim(s)
  {
    var r := Trim(s);
    TrimStartOfTrimmed(r);
    TrimEndOfTrimmed(r);
  }

  /** A string strips to nothing exactly when it is all whitespace. */
  lemma TrimEmptyIffAllSpace(s: string)
    ensures Trim(s) == [] <==> AllSpace(s)
  {
    TrimIsSlice(s);
    var i, j :| 0 <= i <= j <= |s| && Trim(s) == s[i..j] && AllSpace(s[..i]) && AllSpace(s[j..]);
    if Trim(s) == [] {
      forall k | 0 <= k < |s|
        ensures IsSpace(s[k])
      {
        if k < i {
          assert s[..i][k] == s[k];
        } else {
          assert s[j..][k - j] == s[k];
        }
      }
    }
    if Trim(s) != [] {
      assert s[i] == Trim(s)[0];
    }
  }

  // ---------------------------------------------------------------------
  // DRF CharField

  /** A JSON field of a request body: absent, `null`, or a string. */
  datatype FieldValue = Missing | Null | Str(text: string)

  const RequiredMessage := "This field is required."
  const NullMessage := "This field may not be null."
  const BlankMessage := "This field may not be blank."
  const NullCharacterMessage := "Null characters are not allowed."

  /** A required `CharField(max_length=maxLength)`: trimmed, not blank, not
      longer than `maxLength` once trimmed, and free of null characters (the
      validator every `CharField` carries after its length validator). */
  function ValidateCharField(v: FieldValue, maxLength: nat): (r: Result<string>)
    ensures r.Ok? <==> v.Str? && Trim(v.text) != [] && |Trim(v.text)| <= maxLength && '\0' !in Trim(v.text)
    ensures r.Ok? ==> r.value == Trim(v.text) && ValidName(r.value, maxLength)
    ensures v.Missing? ==> r == Invalid(RequiredMessage)
    ensures v.Null? ==> r == Invalid(NullMessage)
    ensures v.Str? && Trim(v.text) != [] && |Trim(v.text)| <= maxLength && '\0' in Trim(v.text) ==>
      r == Invalid(NullCharacterMessage)
    ensures r.NotFound? ==> false
  {
    match v
    case Missing => Invalid(RequiredMessage)
    case Null => Invalid(NullMessage)
    case Str(s) =>
      var t := Trim(s);
      if t == [] then Invalid(BlankMessage)
      else if |t| > maxLength then Invalid("Ensure this field has no more than " + NatToString(maxLength) + " characters.")
      else if '\0' in t then Invalid(NullCharacterMessage)
      else Ok(t)
  }

  /** A whitespace-only value is refused as blank, whatever its length. */
  lemma BlankRefused(s: string, maxLength: nat)
    requires AllSpace(s)
    ensures ValidateCharField(Str(s), maxLength) == Invalid(BlankMessage)
  {
    TrimEmptyIffAllSpace(s);
  }

  /** Stripping only removes whitespace: a non-space character survives it. */
  lemma {:induction false} TrimStartKeeps(s: string, c: char)
    requires c in s && !IsSpace(c)
    ensures c in TrimStart(s)
  {
    if s != [] && IsSpace(s[0]) {
      var k :| 0 <= k < |s| && s[k] == c;
      assert s[1..][k - 1] == c;
      TrimStartKeeps(s[1..], c);
    }
  }

  lemma {:induction false} TrimEndKeeps(s: string, c: char)
    requires c in s && !IsSpace(c)
    ensures c in TrimEnd(s)
  {
    if s != [] && IsSpace(s[|s| - 1]) {
      var k :| 0 <= k < |s| && s[k] == c;
      assert s[..|s| - 1][k] == c;
      TrimEndKeeps(s[..|s| - 1], c);
    }
  }

  lemma TrimKeepsNull(s: string)
    requires '\0' in s
    ensures '\0' in Trim(s)
  {
    TrimStartKeeps(s, '\0');
    TrimEndKeeps(TrimStart(s), '\0');
  }

  /** A null character anywhere in a value gets it refused. */
  lemma NullCharacterRefused(s: string, maxLength: nat)
    requires '\0' in s
    ensures ValidateCharField(Str(s), maxLength).Invalid?
  {
    TrimKeepsNull(s);
  }

  /** The accepted value is what a second validation accepts unchanged. */
  lemma ValidatedIsStable(v: FieldValue, maxLength: nat)
    requires ValidateCharField(v, maxLength).Ok?
    ensures ValidateCharField(Str(ValidateCharField(v, maxLength).value), maxLength) == ValidateCharField(v, maxLength)
  {
    TrimIdempotent(v.text);
  }

  function DigitChar(d: nat): char
    requires d < 10
  {
    ['0', '1', '2', '3', '4', '5', '6', '7', '8', '9'][d]
  }

  /** Decimal notation of `n`, for the framework's messages. */
  function NatToString(n: nat): (r: string)
    ensures |r| >= 1
    ensures forall k :: 0 <= k < |r| ==> '0' <= r[k] <= '9'
  {
    if n < 10 then [DigitChar(n)] else NatToString(n / 10) + [DigitChar(n % 10)]
  }

  // ---------------------------------------------------------------------
  // CategoryImportSerializer

  /** One submitted row of the import, before validation. */
  datatype RawImportRow = RawImportRow(category: FieldValue, item: FieldValue)

  /** One validated row: both names trimmed, non-blank, at most 100 characters. */
  datatype ImportRow = ImportRow(category: string, item: string)

  /** The `items` field of the import body. */
  datatype RowsField = RowsMissing | RowsNull | NotAList | Rows(rows: seq<RawImportRow>)

  const ImportNameLength := 100
  const EmptyImportMessage := "At least one item is required."

  /** A name as a validated `CharField` leaves it. */
  predicate ValidName(s: string, maxLength: nat) {
    s != [] && |s| <= maxLength && !IsSpace(s[0]) && !IsSpace(s[|s| - 1]) && '\0' !in s
  }

  /** `CategoryImportItemSerializer`: both fields are `CharField(max_length=100)`. */
  function ValidateImportRow(row: RawImportRow): (r: Result<ImportRow>)
    ensures r.Ok? <==> ValidateCharField(row.category, ImportNameLength).Ok? && ValidateCharField(row.item, ImportNameLength).Ok?
    ensures r.Ok? ==> r.value == ImportRow(Trim(row.category.text), Trim(row.item.text))
    ensures !r.NotFound?
  {
    var c := ValidateCharField(row.category, ImportNameLength);
    var i := ValidateCharField(row.item, ImportNameLength);
    if c.Invalid? then Invalid(c.error)
    else if i.Invalid? then Invalid(i.error)
    else Ok(ImportRow(c.value, i.value))
  }

  /** The rows in order, each validated; the first refused row refuses them all. */
  function ValidateImportRows(rows: seq<RawImportRow>): (r: Result<seq<ImportRow>>)
    ensures r.Ok? <==> forall k :: 0 <= k < |rows| ==> ValidateImportRow(rows[k]).Ok?
    ensures r.Ok? ==> |r.value| == |rows| && forall k :: 0 <= k < |rows| ==> r.value[k] == ValidateImportRow(rows[k]).value
    ensures !r.NotFound?
  {
    if rows == [] then Ok([])
    else
      var first := ValidateImportRow(rows[0]);
      var rest := ValidateImportRows(rows[1..]);
      if first.Invalid? then Invalid(first.error)
      else if rest.Invalid? then Invalid(rest.error)
      else
        Ok([first.value] + rest.value)
  }

  /** `CategoryImportSerializer.is_valid`: the `items` list must be present, a
      list, every row valid, and (`validate_items`) not empty. */
  function ValidateImport(items: RowsField): (r: Result<seq<ImportRow>>)
    ensures r.Ok? <==> items.Rows? && items.rows != [] && ValidateImportRows(items.rows).Ok?
    ensures r.Ok? ==> r.value == ValidateImportRows(items.rows).value && |r.value| == |items.rows| > 0
    ensures items.Rows? && items.rows == [] ==> r == Invalid(EmptyImportMessage)
    ensures !r.NotFound?
  {
    match items
    case RowsMissing => Invalid(RequiredMessage)
    case RowsNull => Invalid(NullMessage)
    case NotAList => Invalid("Expected a list of items.")
    case Rows(rows) =>
      var valid := ValidateImportRows(rows);
      if valid.Invalid? then Invalid(valid.error)
      else if valid.value == [] then Invalid(EmptyImportMessage)
      else valid
  }

  /** Every accepted row carries two trimmed, non-blank names of at most 100
      characters. */
  lemma ImportedNamesValid(items: RowsField)
    requires ValidateImport(items).Ok?
    ensures forall row :: row in ValidateImport(items).value ==>
      ValidName(row.category, ImportNameLength) && ValidName(row.item, ImportNameLength)
  {
    var rows := ValidateImport(items).value;
    forall row | row in rows
      ensures ValidName(row.category, ImportNameLength) && ValidName(row.item, ImportNameLength)
    {
      var k :| 0 <= k < |rows| && rows[k] == row;
      assert ValidateImportRow(items.rows[k]).Ok?;
    }
  }

  // ---------------------------------------------------------------------
  // Update serializers: writable and read-only fields

  /** A primary-key field of a request body: absent, `null`, or an id. */
  datatype RefValue = RefMissing | RefNull | RefTo(id: Id)

  /** The body of a trip-item update, with every field `TripItemSerializer`
      exposes; `id`, `is_custom`, `category_name` and `created_at` are read-only. */
  datatype TripItemPayload = TripItemPayload(
    id: Option<Id>,
    name: FieldValue,
    isPacked: Option<bool>,
    isCustom: Option<bool>,
    categoryName: FieldValue,
    sourceCategory: RefValue,
    createdAt: Option<Timestamp>)

  const ItemNameLength := 200
  const TripNameLength := 200
  const CategoryNameLength := 100

  /** A field a partial update (PATCH) may omit; a full update (PUT) must
      carry it when it is required. */
  function UpdateName(current: string, v: FieldValue, partial: bool, maxLength: nat): (r: Result<string>)
    ensures partial && v.Missing? ==> r == Ok(current)
    ensures !(partial && v.Missing?) ==> r == ValidateCharField(v, maxLength)
    ensures !r.NotFound?
  {
    if partial && v.Missing? then Ok(current) else ValidateCharField(v, maxLength)
  }

  /** The name an accepted update writes is the current one, when a PATCH
      leaves it out, or else the stripped body value, which is a valid name. */
  lemma UpdatedNameValid(current: string, v: FieldValue, partial: bool, maxLength: nat)
    requires UpdateName(current, v, partial, maxLength).Ok?
    ensures var name := UpdateName(current, v, partial, maxLength).value;
      if partial && v.Missing? then name == current else v.Str? && name == Trim(v.text) && ValidName(name, maxLength)
  {
  }

  /** `source_category` is a nullable primary-key field over every category
      in the store. */
  function UpdateSource(current: Option<Id>, v: RefValue, categories: set<Id>): (r: Result<Option<Id>>)
    ensures r.Ok? <==> !(v.RefTo? && v.id !in categories)
    ensures r.Ok? ==> r.value == match v case RefMissing => current case RefNull => None case RefTo(id) => Some(id)
  {
    match v
    case RefMissing => Ok(current)
    case RefNull => Ok(None)
    case RefTo(id) => if id in categories then Ok(Some(id)) else Invalid("Invalid pk - object does not exist.")
  }

  /** `TripItemSerializer` used for an update: only `name`, `is_packed` and
      `source_category` are written; every other field keeps its value. */
  function UpdateTripItem(item: TripItem, p: TripItemPayload, partial: bool, categories: set<Id>): (r: Result<TripItem>)
    ensures r.Ok? <==> UpdateName(item.name, p.name, partial, ItemNameLength).Ok? && UpdateSource(item.sourceCategory, p.sourceCategory, categories).Ok?
    ensures r.Ok? ==> r.value == item.(name := r.value.name, isPacked := r.value.isPacked, sourceCategory := r.value.sourceCategory)
    ensures r.Ok? ==> r.value.isPacked == p.isPacked.GetOr(item.isPacked)
    ensures r.Ok? ==> r.value.name == UpdateName(item.name, p.name, partial, ItemNameLength).value
    ensures r.Ok? ==> r.value.sourceCategory == UpdateSource(item.sourceCategory, p.sourceCategory, categories).value
    ensures !r.NotFound?
  {
    var name := UpdateName(item.name, p.name, partial, ItemNameLength);
    var source := UpdateSource(item.sourceCategory, p.sourceCategory, categories);
    if name.Invalid? then Invalid(name.error)
    else if source.Invalid? then Invalid(source.error)
    else Ok(item.(name := name.value, isPacked := p.isPacked.GetOr(item.isPacked), sourceCategory := source.value))
  }

  /** Read-only fields are ignored: two bodies that agree on `name`,
      `is_packed` and `source_category` have the same effect. */
  lemma TripItemReadOnlyIgnored(item: TripItem, p: TripItemPayload, q: TripItemPayload, partial: bool, categories: set<Id>)
    requires p.name == q.name && p.isPacked == q.isPacked && p.sourceCategory == q.sourceCategory
    ensures UpdateTripItem(item, p, partial, categories) == UpdateTripItem(item, q, partial, categories)
  {
  }

  /** An update cannot make a snapshot item custom or a custom item a
      snapshot one, nor move it to another trip or trip category. */
  lemma TripItemUpdateKeepsOrigin(item: TripItem, p: TripItemPayload, partial: bool, categories: set<Id>)
    requires UpdateTripItem(item, p, partial, categories).Ok?
    ensures var u := UpdateTripItem(item, p, partial, categories).value;
      u.isCustom == item.isCustom && u.trip == item.trip && u.tripCategory == item.tripCategory && u.createdAt == item.createdAt
  {
  }

  /** An empty PATCH changes nothing. */
  lemma EmptyPatchIsIdentity(item: TripItem, categories: set<Id>)
    ensures UpdateTripItem(item, TripItemPayload(None, Missing, None, None, Missing, RefMissing, None), true, categories) == Ok(item)
  {
  }

  /** A PUT must carry the name. */
  lemma PutNeedsName(item: TripItem, p: TripItemPayload, categories: set<Id>)
    requires p.name.Missing?
    ensures UpdateTripItem(item, p, false, categories) == Invalid(RequiredMessage)
  {
  }

  /** The body of a trip update through `TripDetailSerializer`; `id`,
      `created_at`, `progress` and the nested trip categories are read-only. */
  datatype TripPayload = TripPayload(
    id: Option<Id>,
    name: FieldValue,
    isComplete: Option<bool>,
    progress: Option<Progress>,
    tripCategories: Option<seq<Id>>,
    createdAt: Option<Timestamp>)

  /** Only `name` and `is_complete` are written. */
  function UpdateTrip(trip: Trip, p: TripPayload, partial: bool): (r: Result<Trip>)
    ensures r.Ok? <==> UpdateName(trip.name, p.name, partial, TripNameLength).Ok?
    ensures r.Ok? ==> r.value == trip.(name := r.value.name, isComplete := p.isComplete.GetOr(trip.isComplete))
    ensures r.Ok? ==> r.value.name == UpdateName(trip.name, p.name, partial, TripNameLength).value
    ensures !r.NotFound?
  {
    var name := UpdateName(trip.name, p.name, partial, TripNameLength);
    if name.Invalid? then Invalid(name.error) else Ok(trip.(name := name.value, isComplete := p.isComplete.GetOr(trip.isComplete)))
  }

  lemma TripReadOnlyIgnored(trip: Trip, p: TripPayload, q: TripPayload, partial: bool)
    requires p.name == q.name && p.isComplete == q.isComplete
    ensures UpdateTrip(trip, p, partial) == UpdateTrip(trip, q, partial)
  {
  }

  /** The body of an update through `CategoryItemSerializer` (or
      `CategoryDetailSerializer`); `id`, `created_at` (and the nested items)
      are read-only. */
  datatype NamedPayload = NamedPayload(id: Option<Id>, name: FieldValue, createdAt: Option<Timestamp>)

  /** Only the item's `name` is written; its category and creation time stay. */
  function UpdateCategoryItem(item: CategoryItem, p: NamedPayload, partial: bool): (r: Result<CategoryItem>)
    ensures r.Ok? <==> UpdateName(item.name, p.name, partial, ItemNameLength).Ok?
    ensures r.Ok? ==> r.value == item.(name := r.value.name)
    ensures r.Ok? ==> r.value.name == UpdateName(item.name, p.name, partial, ItemNameLength).value
    ensures !r.NotFound?
  {
    var name := UpdateName(item.name, p.name, partial, ItemNameLength);
    if name.Invalid? then Invalid(name.error) else Ok(item.(name := name.value))
  }

  /** Only the category's `name` is written; its owner and creation time stay. */
  function UpdateCategory(category: Category, p: NamedPayload, partial: bool): (r: Result<Category>)
    ensures r.Ok? <==> UpdateName(category.name, p.name, partial, CategoryNameLength).Ok?
    ensures r.Ok? ==> r.value == category.(name := r.value.name)
    ensures r.Ok? ==> r.value.name == UpdateName(category.name, p.name, partial, CategoryNameLength).value
    ensures !r.NotFound?
  {
    var name := UpdateName(category.name, p.name, partial, CategoryNameLength);
    if name.Invalid? then Invalid(name.error) else Ok(category.(name := name.value))
  }

  lemma CategoryItemReadOnlyIgnored(item: CategoryItem, p: NamedPayload, q: NamedPayload, partial: bool)
    requires p.name == q.name
    ensures UpdateCategoryItem(item, p, partial) == UpdateCategoryItem(item, q, partial)
  {
  }

  // ---------------------------------------------------------------------
  // Exposed fields

  /** `category_name` of a serialized trip item: its trip category's
      `category_name`, or null when it has no trip category. */
  function ExposedCategoryName(item: TripItem, tripCategories: map<Id, TripCategory>): (r: Option<string>)
    requires RefersInto(item.tripCategory, tripCategories.Keys)
    ensures r.Some? <==> item.tripCategory.Some?
    ensures r.Some? ==> r.value == tripCategories[item.tripCategory.value].categoryName
  {
    match item.tripCategory
    case None => None
    case Some(tc) => Some(tripCategories[tc].categoryName)
  }

  /** The exposed name survives the deletion of the category it was copied
      from: deleting a category only unlinks the trip category. */
  lemma ExposedNameSurvivesCategoryDeletion(item: TripItem, tripCategories: map<Id, TripCategory>, category: Id)
    requires RefersInto(item.tripCategory, tripCategories.Keys)
    ensures var unlinked := map k | k in tripCategories :: tripCategories[k].(category := Unlink(tripCategories[k].category, category));
      ExposedCategoryName(item, unlinked) == ExposedCategoryName(item, tripCategories)
  {
  }
}
