/** Shared wrappers: an optional value (a nullable column or an absent claim)
    and the outcome of a request handler (success, not found, validation error). */
module Common {

  datatype Option<+T> = None | Some(value: T) {
    /** The value, or `default` when absent (Python's `dict.get(key, default)`). */
    function GetOr(default: T): T {
      match this
      case Some(v) => v
      case None => default
    }
  }

  /** What a handler answers. NotFound covers both "does not exist" and
      "belongs to someone else": the two are indistinguishable by design. */
  datatype Result<+T> = Ok(value: T) | NotFound | Invalid(error: string)

  /** The elements of a sequence. */
  function Elements<T>(xs: seq<T>): set<T> {
    set x | x in xs
  }

  /** A sequence without repetitions. */
  predicate Distinct<T(==)>(xs: seq<T>) {
    forall i, j :: 0 <= i < j < |xs| ==> xs[i] != xs[j]
  }

  /** A sequence without repetitions has as many elements as its set. */
  lemma {:induction false} DistinctCard<T>(xs: seq<T>)
    requires Distinct(xs)
    ensures |Elements(xs)| == |xs|
  {
    if xs != [] {
      var init, last := xs[..|xs| - 1], xs[|xs| - 1];
      DistinctCard(init);
      assert xs == init + [last];
      assert Elements(xs) == Elements(init) + {last};
      forall k | 0 <= k < |init|
        ensures init[k] != last
      {
        assert init[k] == xs[k];
      }
      assert last !in Elements(init);
    }
  }

  /** How many elements of `xs` lie in `s`. */
  function CountIn<T>(xs: seq<T>, s: set<T>): (n: nat)
    ensures n <= |xs|
  {
    if xs == [] then 0
    else CountIn(xs[..|xs| - 1], s) + if xs[|xs| - 1] in s then 1 else 0
  }

  lemma CountInStep<T>(xs: seq<T>, s: set<T>, i: nat)
    requires i < |xs|
    ensures CountIn(xs[..i + 1], s) == CountIn(xs[..i], s) + if xs[i] in s then 1 else 0
    ensures Elements(xs[..i + 1]) == Elements(xs[..i]) + {xs[i]}
  {
    assert xs[..i + 1][..i] == xs[..i];
    assert xs[..i + 1] == xs[..i] + [xs[i]];
  }

  /** In a sequence without repetitions, an element does not occur before
      its own position. */
  lemma DistinctNotBefore<T>(xs: seq<T>, i: nat)
    requires Distinct(xs) && i < |xs|
    ensures xs[i] !in Elements(xs[..i])
  {
    forall k | 0 <= k < i
      ensures xs[..i][k] != xs[i]
    {
      assert xs[..i][k] == xs[k];
    }
  }

  /** `xs` with every element after its first occurrence dropped; the order
      kept is that of the first occurrences (`DedupKeepsFirstOrder`). */
  function Dedup<T(==)>(xs: seq<T>): (d: seq<T>)
    ensures Elements(d) == Elements(xs)
    ensures Distinct(d)
  {
    if xs == [] then []
    else
      var init := Dedup(xs[..|xs| - 1]);
      var last := xs[|xs| - 1];
      assert xs == xs[..|xs| - 1] + [last];
      if last in init then init
      else
        assert Elements(init + [last]) == Elements(init) + {last};
        init + [last]
  }

  /** The position of the first occurrence of `x` in `xs`. */
  function FirstIndex<T(==)>(xs: seq<T>, x: T): (i: nat)
    requires x in xs
    ensures i < |xs| && xs[i] == x && x !in xs[..i]
  {
    if xs[0] == x then 0 else 1 + FirstIndex(xs[1..], x)
  }

  /** Adding elements at the end moves no first occurrence. */
  lemma FirstIndexOfPrefix<T>(xs: seq<T>, n: nat, x: T)
    requires n <= |xs| && x in xs[..n]
    ensures FirstIndex(xs, x) == FirstIndex(xs[..n], x)
  {
    var a, b := FirstIndex(xs, x), FirstIndex(xs[..n], x);
    assert xs[b] == x;
    forall k | 0 <= k < a
      ensures xs[k] != x
    {
      assert xs[..a][k] == xs[k];
    }
    forall k | 0 <= k < b
      ensures xs[k] != x
    {
      assert xs[..n][..b][k] == xs[k];
    }
  }

  /** `Dedup` keeps the elements in the order of their first occurrences. */
  lemma {:induction false} DedupKeepsFirstOrder<T>(xs: seq<T>, i: nat, j: nat)
    requires i < j < |Dedup(xs)|
    ensures Dedup(xs)[i] in xs && Dedup(xs)[j] in xs
    ensures FirstIndex(xs, Dedup(xs)[i]) < FirstIndex(xs, Dedup(xs)[j])
  {
    assert Dedup(xs)[i] in Elements(Dedup(xs)) && Dedup(xs)[j] in Elements(Dedup(xs));
    var init := xs[..|xs| - 1];
    var last := xs[|xs| - 1];
    var d := Dedup(init);
    assert Dedup(xs) == if last in d then d else d + [last];
    assert d[i] == Dedup(xs)[i] && d[i] in Elements(d);
    FirstIndexOfPrefix(xs, |init|, d[i]);
    if j < |d| {
      DedupKeepsFirstOrder(init, i, j);
      assert d[j] == Dedup(xs)[j] && d[j] in Elements(d);
      FirstIndexOfPrefix(xs, |init|, d[j]);
    } else {
      assert Dedup(xs)[j] == last && last !in Elements(init);
    }
  }

  /** A sequence without repetitions is its own first occurrences. */
  lemma {:induction false} DedupOfDistinct<T>(xs: seq<T>)
    requires Distinct(xs)
    ensures Dedup(xs) == xs
  {
    if xs != [] {
      var init := xs[..|xs| - 1];
      DedupOfDistinct(init);
      assert xs[|xs| - 1] !in Elements(init) by {
        forall k | 0 <= k < |init|
          ensures init[k] != xs[|xs| - 1]
        {
          assert init[k] == xs[k];
        }
      }
      assert xs == init + [xs[|xs| - 1]];
    }
  }
}
