/** Generic sequence notions that the table operations share. */
module Sequences {

  /** `a` is `b` with some elements left out, the rest in their original order. */
  ghost predicate Subseq<T>(a: seq<T>, b: seq<T>)
    decreases |b|
  {
    if a == [] then true
    else if b == [] then false
    else (a[0] == b[0] && Subseq(a[1..], b[1..])) || Subseq(a, b[1..])
  }

  lemma {:induction false} SubseqMembers<T>(a: seq<T>, b: seq<T>)
    requires Subseq(a, b)
    ensures forall x :: x in a ==> x in b
    decreases |b|
  {
    if a != [] && b != [] {
      if a[0] == b[0] && Subseq(a[1..], b[1..]) {
        SubseqMembers(a[1..], b[1..]);
        assert forall x :: x in a ==> x == a[0] || x in a[1..];
      } else {
        SubseqMembers(a, b[1..]);
      }
    }
  }

  /** A sub-sequence is no longer than the sequence it is taken from. */
  lemma {:induction false} SubseqLength<T>(a: seq<T>, b: seq<T>)
    requires Subseq(a, b)
    ensures |a| <= |b|
    decreases |b|
  {
    if a != [] && b != [] {
      if a[0] == b[0] && Subseq(a[1..], b[1..]) {
        SubseqLength(a[1..], b[1..]);
      } else {
        SubseqLength(a, b[1..]);
      }
    }
  }

  /** The key that compares whole elements, as `Series.unique()` does. */
  function Identity<T>(x: T): T { x }

  /**
   * pandas `drop_duplicates(subset=…, keep='first')` and `Series.unique()`: walk `xs` from
   * the front and keep an element only when no element kept before it (and nothing
   * in `seen`) has the same key.
   */
  function DedupBy<T, K>(xs: seq<T>, key: T -> K, seen: set<K>): (r: seq<T>)
    ensures Subseq(r, xs)
    ensures forall i, j :: 0 <= i < j < |r| ==> key(r[i]) != key(r[j])
    ensures forall i :: 0 <= i < |r| ==> key(r[i]) !in seen
    ensures forall x :: x in xs && key(x) !in seen ==> exists y :: y in r && key(y) == key(x)
    decreases |xs|
  {
    if xs == [] then []
    else if key(xs[0]) in seen then DedupBy(xs[1..], key, seen)
    else
      var rest := DedupBy(xs[1..], key, seen + {key(xs[0])});
      assert ([xs[0]] + rest)[1..] == rest;
      assert forall x :: x in xs ==> x == xs[0] || x in xs[1..];
      [xs[0]] + rest
  }

  /**
   * Every first occurrence of a key (not already in `seen`) survives de-duplication,
   * and it is that occurrence which closes the de-duplicated prefix ending at it.
   */
  lemma {:induction false} DedupByKeepsFirst<T, K>(xs: seq<T>, key: T -> K, seen: set<K>, i: nat)
    requires i < |xs| && key(xs[i]) !in seen
    requires forall j :: 0 <= j < i ==> key(xs[j]) != key(xs[i])
    ensures xs[i] in DedupBy(xs, key, seen)
    ensures DedupBy(xs[..i + 1], key, seen) == DedupBy(xs[..i], key, seen) + [xs[i]]
    decreases |xs|
  {
    assert xs[..i + 1] == xs[..i] + [xs[i]];
    assert forall x :: x in xs[..i] ==> exists j :: 0 <= j < i && x == xs[j];
    DedupByFreshLast(xs[..i], key, seen, xs[i]);
    if i > 0 {
      var tail := xs[1..];
      assert tail[i - 1] == xs[i];
      forall j | 0 <= j < i - 1
        ensures key(tail[j]) != key(tail[i - 1])
      {
        assert tail[j] == xs[j + 1];
      }
      if key(xs[0]) in seen {
        DedupByKeepsFirst(tail, key, seen, i - 1);
        assert DedupBy(xs, key, seen) == DedupBy(tail, key, seen);
      } else {
        assert key(xs[0]) != key(xs[i]);
        DedupByKeepsFirst(tail, key, seen + {key(xs[0])}, i - 1);
        var rest := DedupBy(tail, key, seen + {key(xs[0])});
        assert DedupBy(xs, key, seen) == [xs[0]] + rest;
      }
    }
  }

  /** De-duplicating twice changes nothing. */
  lemma {:induction false} DedupByIdempotent<T, K>(xs: seq<T>, key: T -> K, seen: set<K>)
    requires forall i, j :: 0 <= i < j < |xs| ==> key(xs[i]) != key(xs[j])
    requires forall i :: 0 <= i < |xs| ==> key(xs[i]) !in seen
    ensures DedupBy(xs, key, seen) == xs
    decreases |xs|
  {
    if xs != [] {
      FreshTail(xs, key, seen);
      DedupByIdempotent(xs[1..], key, seen + {key(xs[0])});
      assert xs == [xs[0]] + xs[1..];
    }
  }

  /** The tail of a list with distinct, unseen keys has distinct keys unseen even once the head's key is seen. */
  lemma FreshTail<T, K>(xs: seq<T>, key: T -> K, seen: set<K>)
    requires xs != []
    requires forall i, j :: 0 <= i < j < |xs| ==> key(xs[i]) != key(xs[j])
    requires forall i :: 0 <= i < |xs| ==> key(xs[i]) !in seen
    ensures key(xs[0]) !in seen
    ensures forall i, j :: 0 <= i < j < |xs[1..]| ==> key(xs[1..][i]) != key(xs[1..][j])
    ensures forall i :: 0 <= i < |xs[1..]| ==> key(xs[1..][i]) !in seen + {key(xs[0])}
  {
    var tail := xs[1..];
    forall i | 0 <= i < |tail|
      ensures tail[i] == xs[i + 1]
    {
    }
  }


  /** The concatenation of `f(x)` for every `x` of `xs`, in order (pandas `explode`). */
  function FlatMap<A, B>(f: A -> seq<B>, xs: seq<A>): (r: seq<B>)
  {
    if xs == [] then [] else f(xs[0]) + FlatMap(f, xs[1..])
  }

  lemma {:induction false} FlatMapAppend<A, B>(f: A -> seq<B>, a: seq<A>, b: seq<A>)
    ensures FlatMap(f, a + b) == FlatMap(f, a) + FlatMap(f, b)
  {
    if a == [] {
      assert a + b == b;
    } else {
      assert (a + b)[1..] == a[1..] + b;
      FlatMapAppend(f, a[1..], b);
    }
  }

  lemma {:induction false} FlatMapMembers<A, B>(f: A -> seq<B>, xs: seq<A>, y: B)
    ensures y in FlatMap(f, xs) <==> exists x :: x in xs && y in f(x)
  {
    if xs != [] {
      FlatMapMembers(f, xs[1..], y);
      assert forall x :: x in xs <==> x == xs[0] || x in xs[1..];
    }
  }

  /** The elements of `xs` that satisfy `p`, in order (a boolean mask in pandas). */
  function Filter<T(!new)>(p: T -> bool, xs: seq<T>): (r: seq<T>)
    ensures |r| <= |xs|
    ensures forall x :: x in r <==> x in xs && p(x)
    ensures Subseq(r, xs)
  {
    if xs == [] then []
    else
      var rest := Filter(p, xs[1..]);
      assert forall x :: x in xs <==> x == xs[0] || x in xs[1..];
      if p(xs[0]) then
        assert ([xs[0]] + rest)[1..] == rest;
        [xs[0]] + rest
      else rest
  }

  lemma {:induction false} FilterAppend<T(!new)>(p: T -> bool, a: seq<T>, b: seq<T>)
    ensures Filter(p, a + b) == Filter(p, a) + Filter(p, b)
  {
    if a == [] {
      assert a + b == b;
    } else {
      assert (a + b)[1..] == a[1..] + b;
      FilterAppend(p, a[1..], b);
    }
  }

  /**
   * A list that starts with one element and grows by a block of three at each
   * step m holds block i at positions 3i-2 to 3i.
   */
  lemma {:induction false} BlocksOfThree<T>(h: nat -> seq<T>, g: nat -> seq<T>, n: nat)
    requires |h(0)| == 1
    requires forall m: nat :: 0 < m ==> h(m) == h(m - 1) + g(m) && |g(m)| == 3
    ensures |h(n)| == 1 + 3 * n
    ensures h(n)[0] == h(0)[0]
    ensures forall i :: 1 <= i <= n ==> h(n)[3 * i - 2..3 * i + 1] == g(i)
  {
    if n > 0 {
      BlocksOfThree(h, g, n - 1);
      var prev := h(n - 1);
      assert h(n) == prev + g(n);
      forall i | 1 <= i <= n
        ensures h(n)[3 * i - 2..3 * i + 1] == g(i)
      {
        if i < n {
          assert h(n)[3 * i - 2..3 * i + 1] == prev[3 * i - 2..3 * i + 1];
        } else {
          assert h(n)[|prev|..] == g(n);
        }
      }
    }
  }

  /** `x` is an entry of one of the blocks 1..n. */
  ghost predicate InBlocks<T>(x: T, g: nat -> seq<T>, n: nat)
    requires forall m: nat :: 0 < m ==> |g(m)| == 3
  {
    exists i: nat, a :: 1 <= i <= n && 0 <= a < 3 && x == g(i)[a]
  }

  /** In such a list every element after the first comes from one of the blocks 1..n. */
  lemma {:induction false} BlocksCover<T>(h: nat -> seq<T>, g: nat -> seq<T>, n: nat)
    requires |h(0)| == 1
    requires forall m: nat :: 0 < m ==> h(m) == h(m - 1) + g(m) && |g(m)| == 3
    ensures |h(n)| == 1 + 3 * n && h(n)[0] == h(0)[0]
    ensures forall p :: 0 < p < |h(n)| ==> InBlocks(h(n)[p], g, n)
  {
    if n > 0 {
      BlocksCover(h, g, n - 1);
      var prev := h(n - 1);
      assert h(n) == prev + g(n);
      forall p | 0 < p < |h(n)|
        ensures InBlocks(h(n)[p], g, n)
      {
        if p >= |prev| {
          var a := p - |prev|;
          assert 0 <= a < 3 && h(n)[p] == g(n)[a];
        } else {
          assert InBlocks(prev[p], g, n - 1);
          var i: nat, a :| 1 <= i <= n - 1 && 0 <= a < 3 && prev[p] == g(i)[a];
          assert h(n)[p] == g(i)[a];
        }
      }
      assert h(n)[0] == prev[0];
    }
  }

  /**
   * Such a list has no repeated element when no two block entries coincide and
   * none equals the first element.
   */
  lemma {:induction false} BlocksDistinct<T>(h: nat -> seq<T>, g: nat -> seq<T>, n: nat)
    requires |h(0)| == 1
    requires forall m: nat :: 0 < m ==> h(m) == h(m - 1) + g(m) && |g(m)| == 3
    requires forall i: nat, j: nat, a, b :: 1 <= i && 1 <= j && 0 <= a < 3 && 0 <= b < 3 && (i != j || a != b) ==>
      g(i)[a] != g(j)[b]
    requires forall j: nat, b :: 1 <= j && 0 <= b < 3 ==> g(j)[b] != h(0)[0]
    ensures forall p, q :: 0 <= p < q < |h(n)| ==> h(n)[p] != h(n)[q]
  {
    if n > 0 {
      BlocksDistinct(h, g, n - 1);
      BlocksCover(h, g, n - 1);
      var prev := h(n - 1);
      assert h(n) == prev + g(n);
      forall p, q | 0 <= p < q < |h(n)|
        ensures h(n)[p] != h(n)[q]
      {
        if q < |prev| {
          assert h(n)[p] == prev[p] && h(n)[q] == prev[q];
        } else {
          var b := q - |prev|;
          assert h(n)[q] == g(n)[b];
          if p >= |prev| {
            assert h(n)[p] == g(n)[p - |prev|];
          } else if p == 0 {
            assert h(n)[p] == h(0)[0];
          } else {
            assert InBlocks(prev[p], g, n - 1);
            var i: nat, a :| 1 <= i <= n - 1 && 0 <= a < 3 && prev[p] == g(i)[a];
            assert h(n)[p] == g(i)[a];
          }
        }
      }
    }
  }

  /** An element whose key was already seen or kept adds nothing at the end. */
  lemma {:induction false} DedupBySeenLast<T, K>(xs: seq<T>, key: T -> K, seen: set<K>, y: T)
    requires key(y) in seen || exists x :: x in xs && key(x) == key(y)
    ensures DedupBy(xs + [y], key, seen) == DedupBy(xs, key, seen)
    decreases |xs|
  {
    if xs == [] {
      assert xs + [y] == [y];
    } else {
      assert (xs + [y])[1..] == xs[1..] + [y];
      assert forall x :: x in xs ==> x == xs[0] || x in xs[1..];
      if key(xs[0]) in seen {
        DedupBySeenLast(xs[1..], key, seen, y);
      } else {
        DedupBySeenLast(xs[1..], key, seen + {key(xs[0])}, y);
      }
    }
  }

  /** An element whose key is new is appended at the end: order of first appearance is kept. */
  lemma {:induction false} DedupByFreshLast<T, K>(xs: seq<T>, key: T -> K, seen: set<K>, y: T)
    requires key(y) !in seen
    requires forall x :: x in xs ==> key(x) != key(y)
    ensures DedupBy(xs + [y], key, seen) == DedupBy(xs, key, seen) + [y]
    decreases |xs|
  {
    if xs == [] {
      assert xs + [y] == [y];
      assert [y][1..] == [];
    } else {
      var ys, tail := xs + [y], xs[1..];
      assert ys[0] == xs[0] && ys[1..] == tail + [y];
      assert forall x :: x in tail ==> x in xs;
      if key(xs[0]) in seen {
        DedupByFreshLast(tail, key, seen, y);
        assert DedupBy(ys, key, seen) == DedupBy(tail + [y], key, seen);
      } else {
        var seen' := seen + {key(xs[0])};
        DedupByFreshLast(tail, key, seen', y);
        var d := DedupBy(tail, key, seen');
        assert DedupBy(ys, key, seen) == [xs[0]] + (d + [y]);
        assert DedupBy(xs, key, seen) == [xs[0]] + d;
        ConsSnoc(xs[0], d, y);
      }
    }
  }

  lemma ConsSnoc<T>(x: T, d: seq<T>, y: T)
    ensures [x] + (d + [y]) == ([x] + d) + [y]
  {
  }

  /** `a` with the element at position `i` taken out. */
  function Without<T>(a: seq<T>, i: nat): (r: seq<T>)
    requires i < |a|
    ensures |r| == |a| - 1
    ensures forall p :: 0 <= p < i ==> r[p] == a[p]
    ensures forall p :: i <= p < |r| ==> r[p] == a[p + 1]
    ensures multiset(r) == multiset(a) - multiset{a[i]}
  {
    assert a == a[..i] + [a[i]] + a[i + 1..];
    a[..i] + a[i + 1..]
  }

  /** Keys are distinct when the head's key is fresh and the tail's keys are distinct. */
  lemma DistinctConsKeys<T, K>(b: seq<T>, key: T -> K)
    requires b != []
    requires forall j :: 0 < j < |b| ==> key(b[0]) != key(b[j])
    requires forall p, q :: 0 <= p < q < |b[1..]| ==> key(b[1..][p]) != key(b[1..][q])
    ensures forall p, q :: 0 <= p < q < |b| ==> key(b[p]) != key(b[q])
  {
    forall p, q | 0 <= p < q < |b|
      ensures key(b[p]) != key(b[q])
    {
      if p > 0 {
        assert b[p] == b[1..][p - 1] && b[q] == b[1..][q - 1];
      }
    }
  }

  /** Taking out one element keeps the keys of the others distinct and different from its key. */
  lemma WithoutKeys<T, K>(a: seq<T>, i: nat, key: T -> K)
    requires i < |a|
    requires forall p, q :: 0 <= p < q < |a| ==> key(a[p]) != key(a[q])
    ensures forall p, q :: 0 <= p < q < |Without(a, i)| ==> key(Without(a, i)[p]) != key(Without(a, i)[q])
    ensures forall x :: x in Without(a, i) ==> key(x) != key(a[i])
  {
    var rest := Without(a, i);
    forall p, q | 0 <= p < q < |rest|
      ensures key(rest[p]) != key(rest[q])
    {
      var p' := if p < i then p else p + 1;
      var q' := if q < i then q else q + 1;
      assert rest[p] == a[p'] && rest[q] == a[q'];
    }
    forall x | x in rest
      ensures key(x) != key(a[i])
    {
      var m :| 0 <= m < |rest| && rest[m] == x;
      var m' := if m < i then m else m + 1;
      assert rest[m] == a[m'];
    }
  }

  /** Reordering a sequence keeps its keys pairwise distinct. */
  lemma {:induction false} KeysDistinctPermutation<T, K>(a: seq<T>, b: seq<T>, key: T -> K)
    requires multiset(a) == multiset(b)
    requires forall i, j :: 0 <= i < j < |a| ==> key(a[i]) != key(a[j])
    ensures forall i, j :: 0 <= i < j < |b| ==> key(b[i]) != key(b[j])
    decreases |b|
  {
    if b != [] {
      assert b[0] in multiset(b);
      var i :| 0 <= i < |a| && a[i] == b[0];
      var rest := Without(a, i);
      var tail := Without(b, 0);
      assert tail == b[1..];
      WithoutKeys(a, i, key);
      KeysDistinctPermutation(rest, tail, key);
      forall j | 0 < j < |b|
        ensures key(b[0]) != key(b[j])
      {
        assert b[j] in multiset(tail);
      }
      DistinctConsKeys(b, key);
    }
  }
}
