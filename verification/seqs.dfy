/** Sequence operations that `filterComponents` relies on from the JavaScript
    runtime: `Array.prototype.filter` with `includes`, and the insertion-ordered
    `Set` used both to drop repeated query words and to drop repeated results. */
module Seqs {

  /** No element occurs twice. */
  predicate NoDup<T(==)>(s: seq<T>) {
    forall i, j :: 0 <= i < j < |s| ==> s[i] != s[j]
  }

  /** `xs` can be obtained from `ys` by deleting elements: same relative order. */
  predicate IsSubsequence<T(==)>(xs: seq<T>, ys: seq<T>)
    decreases |ys|
  {
    xs == [] ||
    (ys != [] &&
     ((xs[0] == ys[0] && IsSubsequence(xs[1..], ys[1..])) || IsSubsequence(xs, ys[1..])))
  }

  lemma {:induction false} SubsequenceReflexive<T>(xs: seq<T>)
    ensures IsSubsequence(xs, xs)
    decreases |xs|
  {
    if xs != [] {
      SubsequenceReflexive(xs[1..]);
    }
  }

  lemma {:induction false} SubsequenceLength<T>(xs: seq<T>, ys: seq<T>)
    requires IsSubsequence(xs, ys)
    ensures |xs| <= |ys|
    decreases |ys|
  {
    if xs != [] {
      if xs[0] == ys[0] && IsSubsequence(xs[1..], ys[1..]) {
        SubsequenceLength(xs[1..], ys[1..]);
      } else {
        SubsequenceLength(xs, ys[1..]);
      }
    }
  }

  lemma {:induction false} SubsequenceMembers<T>(xs: seq<T>, ys: seq<T>)
    requires IsSubsequence(xs, ys)
    ensures forall x :: x in xs ==> x in ys
    decreases |ys|
  {
    if xs != [] {
      if xs[0] == ys[0] && IsSubsequence(xs[1..], ys[1..]) {
        SubsequenceMembers(xs[1..], ys[1..]);
        assert forall x :: x in xs ==> x == xs[0] || x in xs[1..];
      } else {
        SubsequenceMembers(xs, ys[1..]);
      }
    }
  }

  lemma {:induction false} SubsequenceTransitive<T>(a: seq<T>, b: seq<T>, c: seq<T>)
    requires IsSubsequence(a, b) && IsSubsequence(b, c)
    ensures IsSubsequence(a, c)
    decreases |c|
  {
    if a != [] {
      if IsSubsequence(b, c[1..]) {
        SubsequenceTransitive(a, b, c[1..]);
      } else if IsSubsequence(a, b[1..]) {
        SubsequenceTransitive(a, b[1..], c[1..]);
      } else {
        SubsequenceTransitive(a[1..], b[1..], c[1..]);
      }
    }
  }

  /** `xs.filter(x => keep.includes(x))`: the elements of `xs` that also occur
      in `keep`, in the order of `xs`. */
  function FilterIncluded<T(==)>(xs: seq<T>, keep: seq<T>): (r: seq<T>)
    ensures forall x :: x in r ==> x in xs && x in keep
    ensures forall x :: x in xs && x in keep ==> x in r
    ensures IsSubsequence(r, xs)
    ensures |r| <= |xs|
    decreases |xs|
  {
    if xs == [] then []
    else
      var rest := FilterIncluded(xs[1..], keep);
      SubsequenceLength(rest, xs[1..]);
      if xs[0] in keep then [xs[0]] + rest else rest
  }

  /** `filter` keeps every copy of a kept element and drops every copy of the
      others. */
  lemma {:induction false} FilterIncludedCounts<T>(xs: seq<T>, keep: seq<T>)
    ensures forall x :: multiset(FilterIncluded(xs, keep))[x] == if x in keep then multiset(xs)[x] else 0
    decreases |xs|
  {
    if xs != [] {
      FilterIncludedCounts(xs[1..], keep);
      assert xs == [xs[0]] + xs[1..];
      assert multiset(xs) == multiset{xs[0]} + multiset(xs[1..]);
    }
  }

  /** Iterating `xs` into a `Set` that already holds `seen`, then reading back
      the newly added elements, in insertion order. */
  function DedupFrom<T(==)>(xs: seq<T>, seen: set<T>): seq<T>
    decreases |xs|
  {
    if xs == [] then []
    else if xs[0] in seen then DedupFrom(xs[1..], seen)
    else [xs[0]] + DedupFrom(xs[1..], seen + {xs[0]})
  }

  /** Each element of `xs` outside `seen` is kept once, at its first
      occurrence, and nothing else is kept. */
  lemma {:induction false} DedupFromSpec<T(!new)>(xs: seq<T>, seen: set<T>)
    ensures NoDup(DedupFrom(xs, seen))
    ensures forall x :: x in DedupFrom(xs, seen) <==> x in xs && x !in seen
    ensures IsSubsequence(DedupFrom(xs, seen), xs)
    decreases |xs|
  {
    if xs != [] {
      assert forall x :: x in xs <==> x == xs[0] || x in xs[1..];
      if xs[0] in seen {
        DedupFromSpec(xs[1..], seen);
      } else {
        var rest := DedupFrom(xs[1..], seen + {xs[0]});
        DedupFromSpec(xs[1..], seen + {xs[0]});
        assert xs[0] !in rest;
        assert ([xs[0]] + rest)[1..] == rest;
      }
    }
  }

  /** `Array.from(new Set(xs))`: the distinct elements of `xs` in order of first
      occurrence. */
  function Dedup<T(==,!new)>(xs: seq<T>): (r: seq<T>)
    ensures NoDup(r)
    ensures forall x :: x in r ==> x in xs
    ensures forall x :: x in xs ==> x in r
    ensures IsSubsequence(r, xs)
    ensures xs != [] ==> r != [] && r[0] == xs[0]
  {
    DedupFromSpec(xs, {});
    DedupFrom(xs, {})
  }

  /** Keeping first occurrences changes nothing in a sequence without repeats. */
  lemma {:induction false} DedupFromNoDup<T>(xs: seq<T>, seen: set<T>)
    requires NoDup(xs)
    requires forall x :: x in xs ==> x !in seen
    ensures DedupFrom(xs, seen) == xs
    decreases |xs|
  {
    if xs != [] {
      assert xs[0] !in xs[1..];
      DedupFromNoDup(xs[1..], seen + {xs[0]});
    }
  }

  /** The set of elements of a sequence. */
  function Elements<T>(s: seq<T>): set<T>
    decreases |s|
  {
    if s == [] then {} else {s[0]} + Elements(s[1..])
  }

  lemma {:induction false} ElementsMembers<T>(s: seq<T>, x: T)
    ensures x in Elements(s) <==> x in s
    decreases |s|
  {
    if s != [] {
      ElementsMembers(s[1..], x);
      assert x in s <==> x == s[0] || x in s[1..];
    }
  }

  /** Deduplicating a concatenation deduplicates the first part, then adds the
      elements of the second part that the first did not already contain. */
  lemma {:induction false} DedupFromAppend<T>(a: seq<T>, b: seq<T>, seen: set<T>)
    ensures DedupFrom(a + b, seen) == DedupFrom(a, seen) + DedupFrom(b, seen + Elements(a))
    decreases |a|
  {
    if a == [] {
      assert a + b == b;
      assert seen + Elements(a) == seen;
    } else {
      var seen' := if a[0] in seen then seen else seen + {a[0]};
      assert seen' + Elements(a[1..]) == seen + Elements(a);
      DedupFromAppend(a[1..], b, seen');
      assert (a + b)[1..] == a[1..] + b;
      if a[0] in seen {
        assert DedupFrom(a + b, seen) == DedupFrom(a[1..] + b, seen');
        assert DedupFrom(a, seen) == DedupFrom(a[1..], seen');
      } else {
        assert DedupFrom(a + b, seen) == [a[0]] + DedupFrom(a[1..] + b, seen');
        assert DedupFrom(a, seen) == [a[0]] + DedupFrom(a[1..], seen');
      }
    }
  }

  /** The `Set` insertion rule: adding one more element appends it exactly
      when it is neither already held nor seen before. Together with
      `DedupFrom([], seen) == []` this fixes the whole first-occurrence order. */
  lemma DedupFromSnoc<T>(xs: seq<T>, x: T, seen: set<T>)
    ensures DedupFrom(xs + [x], seen) ==
      DedupFrom(xs, seen) + (if x in seen || x in xs then [] else [x])
  {
    DedupFromAppend(xs, [x], seen);
    ElementsMembers(xs, x);
    assert [x][1..] == [];
  }

  /** `Array.from(new Set(xs + [x]))` is `Array.from(new Set(xs))` with `x`
      appended when `xs` does not already hold it. */
  lemma DedupSnoc<T(!new)>(xs: seq<T>, x: T)
    ensures Dedup(xs + [x]) == Dedup(xs) + (if x in xs then [] else [x])
  {
    DedupFromSnoc(xs, x, {});
  }

  /** A sequence has fewer than two distinct elements exactly when all of its
      elements are equal. */
  lemma {:induction false} DedupShortIffAllEqual<T(!new)>(xs: seq<T>)
    ensures |Dedup(xs)| < 2 <==> forall i, j :: 0 <= i < |xs| && 0 <= j < |xs| ==> xs[i] == xs[j]
  {
    var d := Dedup(xs);
    if |d| >= 2 {
      assert d[0] in xs && d[1] in xs;
      var i :| 0 <= i < |xs| && xs[i] == d[0];
      var j :| 0 <= j < |xs| && xs[j] == d[1];
      assert xs[i] != xs[j];
    } else if xs != [] {
      assert |d| == 1;
      forall i | 0 <= i < |xs| ensures xs[i] == xs[0] {
        assert xs[i] in d;
      }
    }
  }
}
