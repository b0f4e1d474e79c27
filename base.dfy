/** Small value types and sequence helpers shared by every part of the model. */
module Base {

  /** A value that may be absent: JavaScript's null/undefined, Python's None, SQL's NULL. */
  datatype Option<+T> = None | Some(value: T)

  /** The outcome of an operation that may raise. */
  datatype Result<+T, +E> = Success(value: T) | Failure(error: E)

  /** `xs.splice(i, 1)` for an index the caller took from the rendered list. */
  function RemoveAt<T>(xs: seq<T>, i: nat): (r: seq<T>)
    requires i < |xs|
    ensures |r| == |xs| - 1
    ensures forall k :: 0 <= k < i ==> r[k] == xs[k]
    ensures forall k :: i <= k < |r| ==> r[k] == xs[k + 1]
    ensures multiset(r) + multiset{xs[i]} == multiset(xs)
  {
    assert xs == xs[..i] + [xs[i]] + xs[i + 1..];
    xs[..i] + xs[i + 1..]
  }

  /** A non-empty sequence is its front followed by its last element. */
  lemma LastSplit<T>(xs: seq<T>)
    requires xs != []
    ensures xs == xs[..|xs| - 1] + [xs[|xs| - 1]]
  {
  }

  /** Number of occurrences of `x` in `xs`. */
  function Count<T(==)>(xs: seq<T>, x: T): (n: nat)
    ensures n == multiset(xs)[x]
  {
    if xs == [] then 0
    else
      assert xs == xs[..|xs| - 1] + [xs[|xs| - 1]];
      Count(xs[..|xs| - 1], x) + (if xs[|xs| - 1] == x then 1 else 0)
  }

  /** `xs.filter(f => f !== x)`: every element different from `x`, in order. */
  function Without<T(==)>(xs: seq<T>, x: T): (r: seq<T>)
    ensures x !in r
    ensures |r| <= |xs|
  {
    if xs == [] then []
    else
      assert xs == [xs[0]] + xs[1..];
      (if xs[0] == x then [] else [xs[0]]) + Without(xs[1..], x)
  }

  /** Removing a value drops all its occurrences and keeps the count of every other value. */
  lemma {:induction false} WithoutMultiset<T>(xs: seq<T>, x: T)
    ensures multiset(Without(xs, x)) == multiset(xs)[x := 0]
  {
    if xs != [] {
      var rest := Without(xs[1..], x);
      WithoutMultiset(xs[1..], x);
      assert xs == [xs[0]] + xs[1..];
      if xs[0] == x {
        assert Without(xs, x) == rest;
      } else {
        assert Without(xs, x) == [xs[0]] + rest;
        assert multiset(Without(xs, x)) == multiset{xs[0]} + multiset(rest);
      }
    }
  }

  /** Removing a value from a concatenation removes it from each part, so the order of what is left is kept. */
  lemma {:induction false} WithoutConcat<T>(xs: seq<T>, ys: seq<T>, x: T)
    ensures Without(xs + ys, x) == Without(xs, x) + Without(ys, x)
  {
    if xs == [] {
      assert xs + ys == ys;
    } else {
      var head := if xs[0] == x then [] else [xs[0]];
      WithoutConcat(xs[1..], ys, x);
      assert Without(xs + ys, x) == head + Without(xs[1..] + ys, x) by {
        assert (xs + ys)[0] == xs[0];
        assert (xs + ys)[1..] == xs[1..] + ys;
      }
      assert Without(xs, x) == head + Without(xs[1..], x);
      ConcatAssoc(head, Without(xs[1..], x), Without(ys, x));
    }
  }

  lemma ConcatAssoc<T>(a: seq<T>, b: seq<T>, c: seq<T>)
    ensures a + (b + c) == (a + b) + c
  {
  }

  /** Removing a value that does not occur changes nothing. */
  lemma {:induction false} WithoutOfAbsent<T>(xs: seq<T>, x: T)
    requires x !in xs
    ensures Without(xs, x) == xs
  {
    if xs != [] {
      WithoutOfAbsent(xs[1..], x);
      assert xs == [xs[0]] + xs[1..];
    }
  }

  /** True when no value occurs twice. */
  predicate NoDuplicates<T(==)>(xs: seq<T>) {
    forall i, j :: 0 <= i < j < |xs| ==> xs[i] != xs[j]
  }

  /** The set of the elements of `xs`. */
  function Elements<T(==)>(xs: seq<T>): set<T> {
    set x | x in xs
  }

  /** The index of the first occurrence of `x` in `xs`. */
  function FirstIndex<T(==)>(xs: seq<T>, x: T): (k: nat)
    requires x in xs
    ensures k < |xs| && xs[k] == x && x !in xs[..k]
  {
    if xs[0] == x then 0
    else
      var k := FirstIndex(xs[1..], x);
      assert xs[..k + 1] == [xs[0]] + xs[1..][..k];
      k + 1
  }

  /** An occurrence with no earlier one is the first occurrence. */
  lemma FirstIndexUnique<T>(xs: seq<T>, x: T, k: nat)
    requires k < |xs| && xs[k] == x && x !in xs[..k]
    ensures FirstIndex(xs, x) == k
  {
  }

  /** Appending to a sequence does not move the first occurrence of a value already in it. */
  lemma FirstIndexOfPrefix<T>(p: seq<T>, q: seq<T>, x: T)
    requires x in p
    ensures FirstIndex(p + q, x) == FirstIndex(p, x)
  {
    var k := FirstIndex(p, x);
    assert (p + q)[..k] == p[..k];
    FirstIndexUnique(p + q, x, k);
  }

  /**
   * `[...new Set(xs)]`: the elements of `xs` in the order of their first
   * occurrence, each kept once.
   */
  function Dedup<T(==)>(xs: seq<T>): (r: seq<T>)
    ensures NoDuplicates(r)
    ensures Elements(r) == Elements(xs)
    ensures |r| <= |xs|
  {
    if xs == [] then []
    else
      var p := Dedup(xs[..|xs| - 1]);
      var x := xs[|xs| - 1];
      assert xs == xs[..|xs| - 1] + [x];
      assert Elements(xs) == Elements(xs[..|xs| - 1]) + {x};
      if x in p then p else p + [x]
  }

  /** `Dedup` keeps each value at its first occurrence: the values come in the order they first appear. */
  lemma {:induction false} DedupFirstOccurrence<T>(xs: seq<T>)
    ensures forall y :: y in Dedup(xs) ==> y in xs
    ensures forall i, j :: 0 <= i < j < |Dedup(xs)| ==> FirstIndex(xs, Dedup(xs)[i]) < FirstIndex(xs, Dedup(xs)[j])
  {
    var d := Dedup(xs);
    assert forall y :: y in d ==> y in Elements(d);
    if xs != [] {
      var p := xs[..|xs| - 1];
      var x := xs[|xs| - 1];
      assert xs == p + [x];
      DedupFirstOccurrence(p);
      assert x in Dedup(p) <==> x in Elements(Dedup(p));
      assert x in p <==> x in Elements(p);
      DedupSnocOrder(p, x, Dedup(p));
    }
  }

  /** Deduplicating one more element keeps the first-occurrence order. */
  lemma DedupSnocOrder<T>(p: seq<T>, x: T, d: seq<T>)
    requires forall y :: y in d ==> y in p
    requires forall i, j :: 0 <= i < j < |d| ==> FirstIndex(p, d[i]) < FirstIndex(p, d[j])
    ensures x in d ==> forall i, j :: 0 <= i < j < |d| ==> FirstIndex(p + [x], d[i]) < FirstIndex(p + [x], d[j])
    ensures x !in d && x !in p ==> forall i, j :: 0 <= i < j < |d + [x]| ==>
      FirstIndex(p + [x], (d + [x])[i]) < FirstIndex(p + [x], (d + [x])[j])
  {
    forall y | y in d ensures FirstIndex(p + [x], y) == FirstIndex(p, y) {
      FirstIndexOfPrefix(p, [x], y);
    }
    if x !in d && x !in p {
      assert (p + [x])[..|p|] == p;
      FirstIndexUnique(p + [x], x, |p|);
      forall i, j | 0 <= i < j < |d + [x]|
        ensures FirstIndex(p + [x], (d + [x])[i]) < FirstIndex(p + [x], (d + [x])[j])
      {
        assert (d + [x])[i] == d[i] && d[i] in d;
        if j < |d| {
          assert (d + [x])[j] == d[j];
        }
      }
    }
  }

  /** Without duplicates, deduplication changes nothing. */
  lemma {:induction false} DedupOfDistinct<T>(xs: seq<T>)
    requires NoDuplicates(xs)
    ensures Dedup(xs) == xs
  {
    if xs != [] {
      var init := xs[..|xs| - 1];
      DedupOfDistinct(init);
      assert xs[|xs| - 1] !in init;
      assert xs == init + [xs[|xs| - 1]];
    }
  }

  /** Deduplicating `a + b` keeps `a` in front when `a` itself has no duplicates. */
  lemma {:induction false} DedupKeepsDistinctPrefix<T>(a: seq<T>, b: seq<T>)
    requires NoDuplicates(a)
    ensures |Dedup(a + b)| >= |a| && Dedup(a + b)[..|a|] == a
  {
    if b == [] {
      assert a + b == a;
      DedupOfDistinct(a);
    } else {
      var b' := b[..|b| - 1];
      assert (a + b)[..|a + b| - 1] == a + b';
      DedupKeepsDistinctPrefix(a, b');
    }
  }

  /**
   * JavaScript's `xs.length !== new Set(xs).size` is exactly "some value
   * occurs twice".
   */
  lemma {:induction false} SizeOfElements<T>(xs: seq<T>)
    ensures |Elements(xs)| <= |xs|
    ensures |Elements(xs)| == |xs| <==> NoDuplicates(xs)
  {
    if xs != [] {
      var init := xs[..|xs| - 1];
      var x := xs[|xs| - 1];
      SizeOfElements(init);
      assert xs == init + [x];
      assert Elements(xs) == Elements(init) + {x};
      NoDuplicatesSnoc(init, x);
      if x in init {
        assert Elements(xs) == Elements(init);
      } else {
        assert |Elements(xs)| == |Elements(init)| + 1;
      }
    }
  }

  lemma NoDuplicatesSnoc<T>(init: seq<T>, x: T)
    ensures NoDuplicates(init + [x]) <==> NoDuplicates(init) && x !in init
  {
    var xs := init + [x];
    if x in init {
      var k :| 0 <= k < |init| && init[k] == x;
      assert xs[k] == xs[|xs| - 1];
    }
    if NoDuplicates(init) && x !in init {
      forall i, j | 0 <= i < j < |xs| ensures xs[i] != xs[j] {
        assert xs[i] == init[i];
      }
    }
    if NoDuplicates(xs) {
      forall i, j | 0 <= i < j < |init| ensures init[i] != init[j] {
        assert xs[i] == init[i] && xs[j] == init[j];
      }
    }
  }


  /** `map((x, i) => f(i, x))`: each element mapped together with its position. */
  function MapIndexed<A, B>(xs: seq<A>, f: (int, A) -> B): (r: seq<B>)
    ensures |r| == |xs|
    ensures forall i :: 0 <= i < |xs| ==> r[i] == f(i, xs[i])
  {
    seq(|xs|, i requires 0 <= i < |xs| => f(i, xs[i]))
  }

  lemma MapIndexedSnoc<A, B>(xs: seq<A>, x: A, f: (int, A) -> B)
    ensures MapIndexed(xs + [x], f) == MapIndexed(xs, f) + [f(|xs|, x)]
  {
    var a, b := MapIndexed(xs + [x], f), MapIndexed(xs, f) + [f(|xs|, x)];
    forall i | 0 <= i < |a|
      ensures a[i] == b[i]
    {
      if i < |xs| {
        assert (xs + [x])[i] == xs[i];
      }
    }
  }
}
