/** The first half of `CategoryImportView.post` (core/api/views.py): the
    validated rows grouped into `categories_map`, a dictionary from category
    name to its item names, both kept in first-seen order and without
    repetitions. Nothing is written to the store here. */
module ImportGrouping {
  import opened Common
  import opened Serializers

  /** `categories_map`: the keys in insertion order, and each key's list. */
  datatype Grouping = Grouping(order: seq<string>, itemsOf: map<string, seq<string>>)

  /** The keys of the map are the names in `order`, and each is listed there. */
  predicate Covers(g: Grouping) {
    forall c :: c in g.order ==> c in g.itemsOf
  }

  lemma WellFormedCovers(g: Grouping)
    requires WellFormed(g)
    ensures Covers(g)
  {
    forall c | c in g.order
      ensures c in g.itemsOf
    {
      assert c in Elements(g.order);
    }
  }

  /** One pass of the loop: the category gets an empty list the first time it
      is seen, and the item is appended unless the list already holds it. */
  function AddRow(g: Grouping, category: string, item: string): Grouping {
    var items := if category in g.itemsOf then g.itemsOf[category] else [];
    Grouping(
      if category in g.itemsOf then g.order else g.order + [category],
      g.itemsOf[category := if item in items then items else items + [item]])
  }

  /** The grouping of `rows`. */
  function Grouped(rows: seq<ImportRow>): Grouping {
    if rows == [] then Grouping([], map[])
    else
      var last := rows[|rows| - 1];
      AddRow(Grouped(rows[..|rows| - 1]), last.category, last.item)
  }

  /** Each row with both names stripped again, as the view does. */
  function Stripped(rows: seq<ImportRow>): (r: seq<ImportRow>)
    ensures |r| == |rows|
    ensures forall k :: 0 <= k < |rows| ==> r[k] == ImportRow(Trim(rows[k].category), Trim(rows[k].item))
  {
    seq(|rows|, k requires 0 <= k < |rows| => ImportRow(Trim(rows[k].category), Trim(rows[k].item)))
  }

  /** The grouping loop of the view, over rows whose names are already
      stripped (see `Stripped`). */
  method GroupRows(rows: seq<ImportRow>) returns (g: Grouping)
    ensures g == Grouped(rows)
  {
    var order: seq<string> := [];
    var itemsOf: map<string, seq<string>> := map[];
    for i := 0 to |rows|
      invariant Grouping(order, itemsOf) == Grouped(rows[..i])
    {
      var category := rows[i].category;
      var item := rows[i].item;
      if category !in itemsOf {
        order := order + [category];
        itemsOf := itemsOf[category := []];
      }
      if item !in itemsOf[category] {
        itemsOf := itemsOf[category := itemsOf[category] + [item]];
      }
      GroupedStep(rows, i);
    }
    assert rows[..|rows|] == rows;
    g := Grouping(order, itemsOf);
  }

  lemma GroupedStep(rows: seq<ImportRow>, i: nat)
    requires i < |rows|
    ensures Grouped(rows[..i + 1]) == AddRow(Grouped(rows[..i]), rows[i].category, rows[i].item)
  {
    assert rows[..i + 1][..i] == rows[..i];
  }

  // ---------------------------------------------------------------------
  // An independent description: first occurrences

  /** The stripped category names of the rows, in row order. */
  function CategoriesOf(rows: seq<ImportRow>): seq<string> {
    if rows == [] then []
    else CategoriesOf(rows[..|rows| - 1]) + [rows[|rows| - 1].category]
  }

  /** The stripped item names of the rows whose stripped category is `c`. */
  function ItemsIn(rows: seq<ImportRow>, c: string): seq<string> {
    if rows == [] then []
    else
      var last := rows[|rows| - 1];
      ItemsIn(rows[..|rows| - 1], c) + if last.category == c then [last.item] else []
  }

  /** The distinct (category, item) pairs of the rows. */
  function PairsOf(rows: seq<ImportRow>): set<(string, string)> {
    set k | 0 <= k < |rows| :: (rows[k].category, rows[k].item)
  }

  lemma {:induction false} ItemsInAbsent(rows: seq<ImportRow>, c: string)
    requires c !in Elements(CategoriesOf(rows))
    ensures ItemsIn(rows, c) == []
  {
    if rows != [] {
      var init := rows[..|rows| - 1];
      assert Elements(CategoriesOf(rows)) == Elements(CategoriesOf(init)) + {rows[|rows| - 1].category};
      ItemsInAbsent(init, c);
    }
  }

  /** The grouping keeps the categories in the order they first appear, and
      in each category the items in the order they first appear. */
  lemma {:induction false} GroupedIsFirstOccurrences(rows: seq<ImportRow>)
    ensures Grouped(rows).order == Dedup(CategoriesOf(rows))
    ensures Grouped(rows).itemsOf.Keys == Elements(CategoriesOf(rows))
    ensures forall c :: c in Grouped(rows).itemsOf ==> Grouped(rows).itemsOf[c] == Dedup(ItemsIn(rows, c))
  {
    if rows != [] {
      var init := rows[..|rows| - 1];
      var last := rows[|rows| - 1];
      GroupedIsFirstOccurrences(init);
      var g := Grouped(init);
      var c := last.category;
      assert Elements(CategoriesOf(rows)) == Elements(CategoriesOf(init)) + {c};
      var g' := Grouped(rows);
      forall c' | c' in g'.itemsOf
        ensures g'.itemsOf[c'] == Dedup(ItemsIn(rows, c'))
      {
        if c' == c {
          if c !in g.itemsOf {
            ItemsInAbsent(init, c);
          }
          var xs := ItemsIn(rows, c);
          assert xs == ItemsIn(init, c) + [last.item];
          assert xs[..|xs| - 1] == ItemsIn(init, c);
        } else {
          assert ItemsIn(rows, c') == ItemsIn(init, c');
        }
      }
    }
  }

  /** Neither the categories nor the items of one category repeat; the
      listed categories are the keys, and each has at least one item. */
  predicate WellFormed(g: Grouping) {
    && Distinct(g.order)
    && Elements(g.order) == g.itemsOf.Keys
    && forall c :: c in g.itemsOf ==> Distinct(g.itemsOf[c]) && g.itemsOf[c] != []
  }

  lemma {:induction false} GroupedWellFormed(rows: seq<ImportRow>)
    ensures WellFormed(Grouped(rows))
  {
    GroupedIsFirstOccurrences(rows);
    if rows != [] {
      GroupedWellFormed(rows[..|rows| - 1]);
    }
  }

  /** One more row adds its pair to the pairs of the rows before it. */
  lemma PairsOfStep(rows: seq<ImportRow>)
    requires rows != []
    ensures PairsOf(rows) == PairsOf(rows[..|rows| - 1]) + {(rows[|rows| - 1].category, rows[|rows| - 1].item)}
  {
    var init := rows[..|rows| - 1];
    forall k | 0 <= k < |init|
      ensures init[k] == rows[k]
    {
    }
  }

  /** A (category, item) pair is listed exactly when some row carries it. */
  lemma {:induction false} GroupedPairs(rows: seq<ImportRow>)
    ensures forall p :: p in PairsOf(rows) <==> p.0 in Grouped(rows).itemsOf && p.1 in Grouped(rows).itemsOf[p.0]
  {
    if rows != [] {
      GroupedPairs(rows[..|rows| - 1]);
      PairsOfStep(rows);
    }
  }

  /** The number of (category, item) entries of a grouping. */
  function Total(order: seq<string>, itemsOf: map<string, seq<string>>): nat
    requires forall c :: c in order ==> c in itemsOf
  {
    if order == [] then 0
    else Total(order[..|order| - 1], itemsOf) + |itemsOf[order[|order| - 1]]|
  }

  lemma TotalStep(order: seq<string>, itemsOf: map<string, seq<string>>, j: nat)
    requires j < |order| && forall c :: c in order ==> c in itemsOf
    ensures Total(order[..j + 1], itemsOf) == Total(order[..j], itemsOf) + |itemsOf[order[j]]|
  {
    assert order[..j + 1][..j] == order[..j];
  }

  function PairCount(g: Grouping): nat
    requires Covers(g)
  {
    Total(g.order, g.itemsOf)
  }

  /** The total only reads the lists of the categories in `order`. */
  lemma {:induction false} TotalFrame(order: seq<string>, m: map<string, seq<string>>, m': map<string, seq<string>>)
    requires forall c :: c in order ==> c in m && c in m' && m[c] == m'[c]
    ensures Total(order, m) == Total(order, m')
  {
    if order != [] {
      TotalFrame(order[..|order| - 1], m, m');
    }
  }

  /** Growing the list of one listed category grows the total by as much. */
  lemma {:induction false} TotalUpdate(order: seq<string>, m: map<string, seq<string>>, c: string, items: seq<string>)
    requires Distinct(order) && c in order
    requires forall k :: k in order ==> k in m
    requires |items| >= |m[c]|
    ensures Total(order, m[c := items]) == Total(order, m) + |items| - |m[c]|
  {
    var init := order[..|order| - 1];
    var last := order[|order| - 1];
    if last == c {
      assert c !in init by {
        forall k | 0 <= k < |init|
          ensures init[k] != c
        {
          assert init[k] == order[k];
        }
      }
      TotalFrame(init, m, m[c := items]);
    } else {
      assert c in init by {
        var k :| 0 <= k < |order| && order[k] == c;
        assert init[k] == c;
      }
      TotalUpdate(init, m, c, items);
    }
  }

  /** The grouping holds one entry per distinct (category, item) pair of the
      rows, so the import's item counters add up to that number. */
  lemma {:induction false} PairCountIsDistinctPairs(rows: seq<ImportRow>)
    ensures Covers(Grouped(rows))
    ensures PairCount(Grouped(rows)) == |PairsOf(rows)|
  {
    GroupedWellFormed(rows);
    if rows != [] {
      var init := rows[..|rows| - 1];
      var last := rows[|rows| - 1];
      var c, i := last.category, last.item;
      var g := Grouped(init);
      PairCountIsDistinctPairs(init);
      GroupedWellFormed(init);
      GroupedPairs(init);
      PairsOfStep(rows);
      var items := if c in g.itemsOf then g.itemsOf[c] else [];
      var items' := if i in items then items else items + [i];
      assert (c, i) in PairsOf(init) <==> i in items;
      assert |PairsOf(rows)| == |PairsOf(init)| + |items'| - |items|;
      if c in g.itemsOf {
        TotalUpdate(g.order, g.itemsOf, c, items');
      } else {
        TotalFrame(g.order, g.itemsOf, g.itemsOf[c := items']);
        assert Grouped(rows).order == g.order + [c];
        assert (g.order + [c])[..|g.order|] == g.order;
      }
    }
  }

  /** Rows that come out of validation are already stripped, so the view's
      second strip leaves them as validated. */
  lemma StripAgainIsIdentity(rows: seq<ImportRow>)
    requires forall row :: row in rows ==> ValidName(row.category, ImportNameLength) && ValidName(row.item, ImportNameLength)
    ensures Stripped(rows) == rows
  {
    forall k | 0 <= k < |rows|
      ensures Stripped(rows)[k] == rows[k]
    {
      assert rows[k] in rows;
      TrimOfValidName(rows[k].category, ImportNameLength);
      TrimOfValidName(rows[k].item, ImportNameLength);
    }
  }
}
