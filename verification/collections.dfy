/** Collection plumbing shared by the resolver and the merger: enumerations of hash sets,
    order-preserving partition, stable sorting by a natural-number key, and draining a sequence
    module by module. */
module Collections {
  import opened Wrappers

  /** A sequence without repeated elements. */
  predicate NoDuplicates<T(==)>(s: seq<T>) {
    forall i, j | 0 <= i < j < |s| :: s[i] != s[j]
  }

  /** `s` lists the elements of `xs`, each once: one iteration order of a hash set. */
  predicate IsEnumeration<T(==)>(s: seq<T>, xs: set<T>) {
    NoDuplicates(s) && (forall x | x in s :: x in xs) && (forall x | x in xs :: x in s)
  }

  /** The elements of `s` satisfying `p`, in their order in `s` (`Iterator::partition`, one side). */
  function Filter<T>(s: seq<T>, p: T -> bool): (r: seq<T>)
    ensures forall x | x in r :: x in s && p(x)
    ensures forall x | x in s && p(x) :: x in r
    ensures |r| <= |s|
  {
    if |s| == 0 then []
    else if p(s[0]) then [s[0]] + Filter(s[1..], p)
    else Filter(s[1..], p)
  }

  /** The two sides of a partition together hold every element of `s` exactly as often as `s` does. */
  lemma {:induction false} FilterSplits<T>(s: seq<T>, p: T -> bool, q: T -> bool)
    requires forall x :: q(x) == !p(x)
    ensures multiset(Filter(s, p)) + multiset(Filter(s, q)) == multiset(s)
  {
    if |s| > 0 {
      FilterSplits(s[1..], p, q);
      assert s == [s[0]] + s[1..];
    }
  }

  /** Keys never decrease along `s`. */
  predicate SortedBy<T>(s: seq<T>, key: T -> nat) {
    forall i, j | 0 <= i < j < |s| :: key(s[i]) <= key(s[j])
  }

  /** Insert `x` into sorted `s` after every element whose key is not larger: a stable insertion. */
  function Insert<T>(x: T, s: seq<T>, key: T -> nat): (r: seq<T>)
    requires SortedBy(s, key)
    ensures SortedBy(r, key)
    ensures multiset(r) == multiset(s) + multiset{x}
    ensures |r| == |s| + 1
  {
    if |s| == 0 then [x]
    else if key(x) < key(s[0]) then [x] + s
    else
      var rest := Insert(x, s[1..], key);
      assert s == [s[0]] + s[1..];
      InsertAbove(x, s, key, rest);
      [s[0]] + rest
  }

  /** After the head of a sorted `s`, everything inserted behind it has a key at least the head's. */
  lemma InsertAbove<T>(x: T, s: seq<T>, key: T -> nat, rest: seq<T>)
    requires |s| > 0 && SortedBy(s, key) && key(s[0]) <= key(x)
    requires multiset(rest) == multiset(s[1..]) + multiset{x}
    ensures forall k | 0 <= k < |rest| :: key(s[0]) <= key(rest[k])
  {
    forall k | 0 <= k < |rest| ensures key(s[0]) <= key(rest[k]) {
      var y := rest[k];
      assert y in multiset(rest);
      if y != x {
        assert y in multiset(s[1..]);
        var i :| 0 <= i < |s[1..]| && s[1..][i] == y;
        assert s[i + 1] == y;
      }
    }
  }

  /** `sort_by` on the key: an insertion sort, so elements with equal keys keep their order. */
  function SortBy<T>(s: seq<T>, key: T -> nat): (r: seq<T>)
    ensures SortedBy(r, key)
    ensures multiset(r) == multiset(s)
    ensures |r| == |s|
  {
    if |s| == 0 then []
    else
      var prefix := s[..|s| - 1];
      assert s == prefix + [s[|s| - 1]];
      Insert(s[|s| - 1], SortBy(prefix, key), key)
  }

  /** The position of the first occurrence of `m` in `ms`, or `|ms|` when it does not occur. */
  function Rank<M(==)>(ms: seq<M>, m: M): (r: nat)
    ensures r <= |ms|
    ensures r < |ms| <==> m in ms
    ensures r < |ms| ==> ms[r] == m && forall k | 0 <= k < r :: ms[k] != m
  {
    if |ms| == 0 then 0
    else if ms[0] == m then 0
    else 1 + Rank(ms[1..], m)
  }

  /** Take out the elements owned by `m`, sorted by key, and leave the others in order. */
  function RemoveSorted<T, M(==)>(s: seq<T>, m: M, owner: T -> M, key: T -> nat): (r: (seq<T>, seq<T>))
    ensures forall x | x in r.0 :: x in s && owner(x) == m
    ensures forall x | x in s && owner(x) == m :: x in r.0
    ensures forall x | x in r.1 :: x in s && owner(x) != m
    ensures forall x | x in s && owner(x) != m :: x in r.1
    ensures SortedBy(r.0, key)
    ensures multiset(r.0) + multiset(r.1) == multiset(s)
  {
    var owned: T -> bool := x => owner(x) == m;
    var others: T -> bool := x => owner(x) != m;
    var taken := Filter(s, owned);
    var kept := Filter(s, others);
    FilterSplits(s, owned, others);
    var sorted := SortBy(taken, key);
    forall x | x in taken ensures x in sorted {
      assert x in multiset(taken);
    }
    forall x | x in sorted ensures x in taken {
      assert x in multiset(sorted);
    }
    (sorted, kept)
  }

  /** The loop of `assign_identities` over the modules, for one kind of entry: for each module in
      turn, its entries are taken out sorted by key and appended. Returns what was collected and
      what no module claimed. */
  function Drain<T, M(==)>(s: seq<T>, ms: seq<M>, owner: T -> M, key: T -> nat): (r: (seq<T>, seq<T>))
    ensures multiset(r.0) + multiset(r.1) == multiset(s)
    ensures forall x | x in r.1 :: owner(x) !in ms
    decreases |ms|
  {
    if |ms| == 0 then ([], s)
    else
      var (taken, kept) := RemoveSorted(s, ms[0], owner, key);
      var (collected, left) := Drain(kept, ms[1..], owner, key);
      assert forall x | x in left :: x in multiset(kept);
      (taken + collected, left)
  }

  /** Collected entries are grouped by module in the order the modules are listed, and sorted by
      key within a module. */
  predicate DrainOrdered<T, M(==)>(r: seq<T>, ms: seq<M>, owner: T -> M, key: T -> nat) {
    forall i, j | 0 <= i < j < |r| ::
      Rank(ms, owner(r[i])) <= Rank(ms, owner(r[j]))
      && (owner(r[i]) == owner(r[j]) ==> key(r[i]) <= key(r[j]))
  }

  /** An entry is collected exactly when its module is listed. */
  lemma {:induction false} DrainCollects<T, M>(s: seq<T>, ms: seq<M>, owner: T -> M, key: T -> nat)
    ensures forall x | x in Drain(s, ms, owner, key).0 :: x in s && owner(x) in ms
    ensures forall x | x in s && owner(x) in ms :: x in Drain(s, ms, owner, key).0
    decreases |ms|
  {
    if |ms| > 0 {
      var kept := RemoveSorted(s, ms[0], owner, key).1;
      DrainCollects(kept, ms[1..], owner, key);
      forall x | x in s && owner(x) in ms ensures x in Drain(s, ms, owner, key).0 {
        assert owner(x) == ms[0] || owner(x) in ms[1..];
      }
    }
  }

  /** The collection is grouped by module in list order and sorted by key within a module. */
  lemma {:induction false} DrainSorted<T, M>(s: seq<T>, ms: seq<M>, owner: T -> M, key: T -> nat)
    ensures DrainOrdered(Drain(s, ms, owner, key).0, ms, owner, key)
    decreases |ms|
  {
    if |ms| > 0 {
      var (taken, kept) := RemoveSorted(s, ms[0], owner, key);
      DrainSorted(kept, ms[1..], owner, key);
      DrainCollects(kept, ms[1..], owner, key);
      var collected := Drain(kept, ms[1..], owner, key).0;
      assert taken + collected == Drain(s, ms, owner, key).0;
      OrderedAppend(taken, collected, ms, owner, key);
    }
  }

  /** One module's sorted entries followed by a collection ordered over the remaining modules,
      none of them owned by the first, are ordered over all the modules. (An instantiation hint
      for `DrainSorted`: it states the step at the point where the induction needs it.) */
  lemma OrderedAppend<T, M>(taken: seq<T>, collected: seq<T>, ms: seq<M>, owner: T -> M, key: T -> nat)
    requires |ms| > 0
    requires forall x | x in taken :: owner(x) == ms[0]
    requires SortedBy(taken, key)
    requires forall x | x in collected :: owner(x) != ms[0]
    requires DrainOrdered(collected, ms[1..], owner, key)
    ensures DrainOrdered(taken + collected, ms, owner, key)
  {
  }

  /** The position of the first element of `s` satisfying `p` (`Iterator::find`). */
  function FindFirst<T>(s: seq<T>, p: T -> bool): (r: Option<nat>)
    ensures r.Some? ==> r.value < |s| && p(s[r.value])
    ensures r.Some? ==> forall k | 0 <= k < r.value :: !p(s[k])
    ensures r.None? <==> forall k | 0 <= k < |s| :: !p(s[k])
  {
    if |s| == 0 then None
    else if p(s[0]) then Some(0)
    else match FindFirst(s[1..], p)
      case None => None
      case Some(k) => Some(k + 1)
  }

  /** A subset is no larger than its superset. */
  lemma SubsetCardinality<T>(a: set<T>, b: set<T>)
    requires a <= b
    ensures |a| <= |b|
  {
    assert b == a + (b - a);
  }
}
