/**
 * A model of `IterWrapper`, the lazy combinator wrapper of iters.py.
 *
 * A wrapper is modelled by what one pass over it produces: the finite
 * sequence of elements it yields, in order, and how the pass ends once they
 * are used up -- the iterator is exhausted, or the next pull raises.  Every
 * combinator is a function of such passes.  Because a generator pipeline is
 * demand driven, an exception that sits after the last element is only seen
 * by a consumer that pulls that far: `take` that breaks early, or `contains`
 * that finds its item, never meets it.  Sources are finite and re-iterable,
 * so every pass over a wrapper yields the same.
 */
module Iters {

  datatype Option<T> = None | Some(value: T)

  /** The Python exceptions that the wrapper's own code raises. */
  datatype Error = TypeError | ValueError | IndexError | ZeroDivisionError

  datatype Result<T> = Ok(value: T) | Err(error: Error)

  /** How a pass ends once its elements are used up. */
  datatype Ending = Exhausted | Raises(error: Error)

  /** One pass over an `IterWrapper`. */
  datatype Wrapper<T> = Wrapper(items: seq<T>, ending: Ending)

  /** `IterWrapper(s)` around a finite re-iterable source such as a list or a range. */
  function Wrap<T>(s: seq<T>): (r: Wrapper<T>)
    ensures Collect(r) == Ok(s)
  {
    Wrapper(s, Exhausted)
  }

  function Min(a: int, b: int): int { if a < b then a else b }
  function Max(a: int, b: int): int { if a < b then b else a }
  function Abs(a: int): nat { if a < 0 then -a else a }

  // ---------------------------------------------------------------------
  // Arithmetic helpers
  // ---------------------------------------------------------------------

  /** Euclidean remainder is determined by any quotient that leaves a remainder in range. */
  lemma ModShift(a: int, m: int, q: int)
    requires m >= 1 && 0 <= a - q * m < m
    ensures a % m == a - q * m
  {
    var q0, r0 := a / m, a % m;
    assert a == q0 * m + r0;
    var d := q0 - q;
    assert d * m == (a - q * m) - r0;
    if d > 0 {
      MulMono(1, d, m);
    } else if d < 0 {
      MulMono(d, -1, m);
    }
  }

  /** The test `idx % s == 0` does not depend on the sign of `s`. */
  lemma ModAbs(a: int, m: int)
    requires m != 0
    ensures (a % m == 0) <==> (a % Abs(m) == 0)
  {
    if m < 0 {
      assert a == (a / m) * m + a % m;
      ModShift(a, -m, -(a / m));
    }
  }

  lemma ModDown(a: int, m: int)
    requires m >= 1 && a >= m
    ensures (a - m) % m == a % m
  {
    assert a == (a / m) * m + a % m;
    ModShift(a - m, m, a / m - 1);
  }

  lemma MulMono(a: int, b: int, m: int)
    requires a <= b && m >= 0
    ensures a * m <= b * m
  {
    assert b * m - a * m == (b - a) * m;
  }

  // ---------------------------------------------------------------------
  // Specification functions
  // ---------------------------------------------------------------------

  /** `collect(list)`: the elements of one pass, or the exception that ends it. */
  function Collect<T>(w: Wrapper<T>): (r: Result<seq<T>>)
    ensures r.Ok? <==> w.ending == Exhausted
    ensures r.Ok? ==> r.value == w.items
    ensures r.Err? ==> w.ending == Raises(r.error)
  {
    match w.ending
    case Exhausted => Ok(w.items)
    case Raises(e) => Err(e)
  }

  /** The elements of `s` that satisfy `f`, in their original order. */
  function Filtered<T>(s: seq<T>, f: T -> bool): (r: seq<T>)
    ensures |r| <= |s|
    ensures forall i :: 0 <= i < |r| ==> r[i] in s && f(r[i])
    ensures forall i :: 0 <= i < |s| && f(s[i]) ==> s[i] in r
    decreases |s|
  {
    if s == [] then []
    else (if f(s[0]) then [s[0]] else []) + Filtered(s[1..], f)
  }

  /** The elements at positions 0, m, 2m, ... of `s`, in order. */
  function Strided<T>(s: seq<T>, m: nat): seq<T>
    requires m >= 1
    decreases |s|
  {
    if s == [] then [] else [s[0]] + Strided(s[Min(m, |s|)..], m)
  }

  /** `t` copies of `s`, one after the other. */
  function Copies<T>(s: seq<T>, t: nat): seq<T>
  {
    if t == 0 then [] else Copies(s, t - 1) + s
  }

  function Reversed<T>(s: seq<T>): (r: seq<T>)
    ensures |r| == |s|
    ensures forall i :: 0 <= i < |s| ==> r[i] == s[|s| - 1 - i]
  {
    if s == [] then [] else Reversed(s[1..]) + [s[0]]
  }

  /** A left fold: `f(...f(f(acc, s[0]), s[1])..., s[|s|-1])`. */
  function FoldLeft<T, U>(f: (U, T) -> U, acc: U, s: seq<T>): U
    decreases |s|
  {
    if s == [] then acc else FoldLeft(f, f(acc, s[0]), s[1..])
  }

  /**
   * An element of a wrapper being flattened: either something that is itself
   * iterable, whose elements `flat` yields in turn, or anything else, which it
   * yields as it is.
   */
  datatype Item<T> = Leaf(x: T) | Nested(xs: seq<T>)

  function Expand<T>(e: Item<T>): seq<T>
  {
    match e
    case Leaf(x) => [x]
    case Nested(xs) => xs
  }

  function Flattened<T>(s: seq<Item<T>>): seq<T>
    decreases |s|
  {
    if s == [] then [] else Expand(s[0]) + Flattened(s[1..])
  }

  /** What `take(c)` yields. */
  function Taken<T>(w: Wrapper<T>, c: Option<int>): Wrapper<T>
  {
    match c
    case None => w
    case Some(k) =>
      if Max(k, 0) < |w.items| then Wrapper(w.items[..Max(k, 0)], Exhausted) else w
  }

  /** What `skip(c)` yields. */
  function Skipped<T>(w: Wrapper<T>, c: Option<int>): Wrapper<T>
  {
    match c
    case None => w
    case Some(k) => Wrapper(w.items[Min(Max(k, 0), |w.items|)..], w.ending)
  }

  /** What `step(s)` yields; `s == 0` raises on the first element pulled. */
  function Stepped<T>(w: Wrapper<T>, s: Option<int>): Wrapper<T>
  {
    match s
    case None => w
    case Some(m) =>
      if m != 0 then Wrapper(Strided(w.items, Abs(m)), w.ending)
      else if |w.items| == 0 then w
      else Wrapper([], Raises(ZeroDivisionError))
  }

  /** What `repeat(t)` yields: the first pass that raises ends the repetition. */
  function Repeated<T>(w: Wrapper<T>, t: int): Wrapper<T>
  {
    if t <= 0 then Wrap([])
    else if w.ending.Raises? then w
    else Wrap(Copies(w.items, t))
  }

  /** `first` followed by `second`, as `yield from first; yield from second`. */
  function Then<T>(first: Wrapper<T>, second: Wrapper<T>): Wrapper<T>
  {
    if first.ending.Raises? then first
    else Wrapper(first.items + second.items, second.ending)
  }

  // ---------------------------------------------------------------------
  // Lemmas about the specification functions
  // ---------------------------------------------------------------------

  lemma {:induction false} FilteredAppend<T>(a: seq<T>, b: seq<T>, f: T -> bool)
    ensures Filtered(a + b, f) == Filtered(a, f) + Filtered(b, f)
    decreases |a|
  {
    if a == [] {
      assert a + b == b;
    } else {
      assert (a + b)[1..] == a[1..] + b;
      FilteredAppend(a[1..], b, f);
    }
  }

  /** Filtering keeps every occurrence of an element that passes and none of one that fails. */
  lemma {:induction false} FilteredMultiset<T>(s: seq<T>, f: T -> bool)
    ensures forall x | x in multiset(s) ::
      multiset(Filtered(s, f))[x] == (if f(x) then multiset(s)[x] else 0)
    ensures forall x | x !in multiset(s) :: x !in multiset(Filtered(s, f))
    decreases |s|
  {
    if s != [] {
      FilteredMultiset(s[1..], f);
      assert s == [s[0]] + s[1..];
    }
  }

  lemma {:induction false} FilteredAll<T>(s: seq<T>, f: T -> bool)
    requires forall i :: 0 <= i < |s| ==> f(s[i])
    ensures Filtered(s, f) == s
    decreases |s|
  {
    if s != [] {
      assert s == [s[0]] + s[1..];
      FilteredAll(s[1..], f);
    }
  }

  lemma {:induction false} StridedLength<T>(s: seq<T>, m: nat)
    requires m >= 1
    ensures |Strided(s, m)| * m >= |s|
    ensures |s| > 0 ==> (|Strided(s, m)| - 1) * m < |s|
    ensures |Strided(s, m)| == 0 <==> |s| == 0
    decreases |s|
  {
    if s != [] {
      var rest := s[Min(m, |s|)..];
      StridedLength(rest, m);
      var l := |Strided(rest, m)|;
      assert |Strided(s, m)| == l + 1;
      CeilStep(|s|, |rest|, m, l);
    }
  }

  /** One more stride of `m` covers `n` when `l` strides cover the `n - min(m, n)` left over. */
  lemma CeilStep(n: nat, left: nat, m: nat, l: nat)
    requires m >= 1 && n > 0 && left == n - Min(m, n)
    requires l * m >= left && (left > 0 ==> (l - 1) * m < left) && (l == 0 <==> left == 0)
    ensures (l + 1) * m >= n && l * m < n
  {
    assert (l + 1) * m == l * m + m;
    if l > 0 {
      assert (l - 1) * m + m == l * m;
    }
  }

  lemma {:induction false} StridedAt<T>(s: seq<T>, m: nat, j: nat)
    requires m >= 1 && j < |Strided(s, m)|
    ensures j * m < |s| && Strided(s, m)[j] == s[j * m]
    decreases |s|
  {
    if j > 0 {
      var rest := s[Min(m, |s|)..];
      assert Strided(s, m)[j] == Strided(rest, m)[j - 1];
      StridedAt(rest, m, j - 1);
      assert rest != [];
      assert (j - 1) * m + m == j * m;
    }
  }

  lemma {:induction false} StridedSnoc<T>(s: seq<T>, x: T, m: nat)
    requires m >= 1
    ensures Strided(s + [x], m) == Strided(s, m) + (if |s| % m == 0 then [x] else [])
    decreases |s|
  {
    if s == [] {
      assert Strided([x], m) == [x] + Strided([], m);
    } else if m <= |s| {
      StridedSnoc(s[m..], x, m);
      GridTail(|s[m..]|, |s|, x, m);
      StridedSnocStep(s, x, m, if |s| % m == 0 then [x] else []);
    } else {
      StridedSnocShort(s, x, m);
    }
  }

  /** Whether an append lands on the grid of positions 0, m, 2m, ... does not change by one stride. */
  lemma GridTail<T>(k: nat, n: nat, x: T, m: nat)
    requires 1 <= m <= n && k == n - m
    ensures (if k % m == 0 then [x] else []) == (if n % m == 0 then [x] else [])
  {
    ModDown(n, m);
  }

  /** Appending past a full stride: the first stride is unchanged and the rest carries the answer. */
  lemma StridedSnocStep<T>(s: seq<T>, x: T, m: nat, tail: seq<T>)
    requires 1 <= m <= |s|
    requires Strided(s[m..] + [x], m) == Strided(s[m..], m) + tail
    ensures Strided(s + [x], m) == Strided(s, m) + tail
  {
    var longer := s + [x];
    SuffixSnoc(s, x, m);
    assert Min(m, |longer|) == m && Min(m, |s|) == m;
    assert Strided(longer, m) == [s[0]] + Strided(s[m..] + [x], m);
    assert Strided(s, m) == [s[0]] + Strided(s[m..], m);
    ConcatAssoc([s[0]], Strided(s[m..], m), tail);
  }

  lemma ConcatAssoc<T>(a: seq<T>, b: seq<T>, c: seq<T>)
    ensures a + (b + c) == (a + b) + c
  {
  }

  lemma SuffixSnoc<T>(s: seq<T>, x: T, m: nat)
    requires 1 <= m <= |s|
    ensures (s + [x])[0] == s[0]
    ensures (s + [x])[m..] == s[m..] + [x]
  {
  }

  /** Appending within the first stride adds nothing. */
  lemma StridedSnocShort<T>(s: seq<T>, x: T, m: nat)
    requires 1 <= |s| < m
    ensures Strided(s + [x], m) == Strided(s, m) + (if |s| % m == 0 then [x] else [])
  {
    ModShift(|s|, m, 0);
    assert (s + [x])[Min(m, |s| + 1)..] == [];
    assert s[Min(m, |s|)..] == [];
    assert Strided(s + [x], m) == Strided(s, m);
  }

  lemma {:induction false} StridedOne<T>(s: seq<T>)
    ensures Strided(s, 1) == s
    decreases |s|
  {
    if s != [] {
      StridedOne(s[1..]);
    }
  }

  lemma {:induction false} CopiesLength<T>(s: seq<T>, t: nat)
    ensures |Copies(s, t)| == t * |s|
  {
    if t > 0 {
      CopiesLength(s, t - 1);
      assert (t - 1) * |s| + |s| == t * |s|;
    }
  }

  lemma {:induction false} CopiesAt<T>(s: seq<T>, t: nat, k: nat)
    requires k < |Copies(s, t)|
    ensures |s| > 0 && Copies(s, t)[k] == s[k % |s|]
  {
    CopiesLength(s, t);
    var before := Copies(s, t - 1);
    CopiesLength(s, t - 1);
    if k < |before| {
      CopiesAt(s, t - 1, k);
    } else {
      assert (t - 1) * |s| + |s| == t * |s|;
      ModShift(k, |s|, t - 1);
    }
  }

  lemma {:induction false} CopiesAppend<T>(s: seq<T>, a: nat, b: nat)
    ensures Copies(s, a + b) == Copies(s, a) + Copies(s, b)
    decreases b
  {
    if b == 0 {
      assert Copies(s, a) + [] == Copies(s, a);
    } else {
      CopiesAppend(s, a, b - 1);
    }
  }

  lemma {:induction false} ReversedTwice<T>(s: seq<T>)
    ensures Reversed(Reversed(s)) == s
  {
    var r := Reversed(Reversed(s));
    assert |r| == |s|;
    forall i | 0 <= i < |s| ensures r[i] == s[i] {
      assert r[i] == Reversed(s)[|s| - 1 - i];
    }
  }

  lemma {:induction false} FoldLeftAppend<T, U>(f: (U, T) -> U, acc: U, s: seq<T>, t: seq<T>)
    ensures FoldLeft(f, acc, s + t) == FoldLeft(f, FoldLeft(f, acc, s), t)
    decreases |s|
  {
    if s == [] {
      assert s + t == t;
    } else {
      assert (s + t)[1..] == s[1..] + t;
      FoldLeftAppend(f, f(acc, s[0]), s[1..], t);
    }
  }

  lemma {:induction false} FlattenedAppend<T>(a: seq<Item<T>>, b: seq<Item<T>>)
    ensures Flattened(a + b) == Flattened(a) + Flattened(b)
    decreases |a|
  {
    if a == [] {
      assert a + b == b;
    } else {
      assert (a + b)[1..] == a[1..] + b;
      FlattenedAppend(a[1..], b);
    }
  }

  /** Flattening a wrapper none of whose elements is iterable changes nothing. */
  lemma {:induction false} FlattenedLeaves<T>(s: seq<T>)
    ensures Flattened(seq(|s|, i requires 0 <= i < |s| => Leaf(s[i]))) == s
    decreases |s|
  {
    var leaves := seq(|s|, i requires 0 <= i < |s| => Leaf(s[i]));
    if s != [] {
      var rest := seq(|s| - 1, i requires 0 <= i < |s| - 1 => Leaf(s[1..][i]));
      assert leaves[1..] == rest;
      FlattenedLeaves(s[1..]);
      assert s == [s[0]] + s[1..];
    }
  }

  // ---------------------------------------------------------------------
  // Lazy transformations
  // ---------------------------------------------------------------------

  /** `map(f)`: `f` applied to every element, in order. */
  function Map<T, U>(w: Wrapper<T>, f: T -> U): (r: Wrapper<U>)
    ensures |r.items| == |w.items| && r.ending == w.ending
    ensures forall i :: 0 <= i < |w.items| ==> r.items[i] == f(w.items[i])
  {
    Wrapper(seq(|w.items|, i requires 0 <= i < |w.items| => f(w.items[i])), w.ending)
  }

  /**
   * `filter(f)`: the elements for which `f` holds.  The contract gives which
   * elements and how often; their order, that of the source, follows from
   * `FilteredAppend`.
   */
  function Filter<T>(w: Wrapper<T>, f: T -> bool): (r: Wrapper<T>)
    ensures |r.items| <= |w.items| && r.ending == w.ending
    ensures forall i :: 0 <= i < |r.items| ==> r.items[i] in w.items && f(r.items[i])
    ensures forall i :: 0 <= i < |w.items| && f(w.items[i]) ==> w.items[i] in r.items
    ensures forall i :: 0 <= i < |w.items| ==>
      multiset(r.items)[w.items[i]] == (if f(w.items[i]) then multiset(w.items)[w.items[i]] else 0)
  {
    FilteredMultiset(w.items, f);
    Wrapper(Filtered(w.items, f), w.ending)
  }

  /** One more element of the source adds its expansion to the flattened prefix. */
  lemma FlattenedSnoc<T>(s: seq<Item<T>>, i: nat)
    requires i < |s|
    ensures Flattened(s[..i + 1]) == Flattened(s[..i]) + Expand(s[i])
  {
    assert s[..i + 1] == s[..i] + [s[i]];
    FlattenedAppend(s[..i], [s[i]]);
    assert Flattened([s[i]]) == Expand(s[i]) + Flattened([]);
  }

  /** One more element of the source adds one to the filtered prefix exactly when it passes. */
  lemma FilteredSnoc<T>(s: seq<T>, i: nat, p: T -> bool)
    requires i < |s|
    ensures |Filtered(s[..i + 1], p)| == |Filtered(s[..i], p)| + (if p(s[i]) then 1 else 0)
  {
    assert s[..i + 1] == s[..i] + [s[i]];
    FilteredAppend(s[..i], [s[i]], p);
    assert Filtered([s[i]], p) == (if p(s[i]) then [s[i]] else []) + Filtered([], p);
  }

  /** `flat()`: every iterable element is replaced by its own elements. */
  method Flat<T>(w: Wrapper<Item<T>>) returns (r: Wrapper<T>)
    ensures r == Wrapper(Flattened(w.items), w.ending)
  {
    var out: seq<T> := [];
    var i := 0;
    while i < |w.items|
      invariant 0 <= i <= |w.items|
      invariant out == Flattened(w.items[..i])
    {
      FlattenedSnoc(w.items, i);
      match w.items[i] {
        case Leaf(x) =>
          out := out + [x];
        case Nested(xs) =>
          var j := 0;
          while j < |xs|
            invariant 0 <= j <= |xs|
            invariant out == Flattened(w.items[..i]) + xs[..j]
          {
            assert xs[..j + 1] == xs[..j] + [xs[j]];
            out := out + [xs[j]];
            j := j + 1;
          }
          assert xs[..j] == xs;
      }
      i := i + 1;
    }
    assert w.items[..i] == w.items;
    r := Wrapper(out, w.ending);
  }

  /**
   * `take(c)`: `None` returns the wrapper itself; otherwise each element is
   * pulled and passed on until the one at position `c`, which ends the pass.
   */
  method Take<T>(w: Wrapper<T>, c: Option<int>) returns (r: Wrapper<T>)
    ensures r == Taken(w, c)
    ensures c.Some? ==> r.items == w.items[..Min(Max(c.value, 0), |w.items|)]
    ensures c.Some? && Max(c.value, 0) < |w.items| ==> r.ending == Exhausted
  {
    if c.None? {
      return w;
    }
    var k := c.value;
    var out: seq<T> := [];
    var idx := 0;
    while idx < |w.items|
      invariant 0 <= idx <= |w.items| && idx <= Max(k, 0)
      invariant out == w.items[..idx]
    {
      if idx + 1 > k {
        return Wrapper(out, Exhausted);
      }
      out := out + [w.items[idx]];
      idx := idx + 1;
    }
    r := Wrapper(out, w.ending);
  }

  /** `skip(c)`: `None` returns the wrapper itself; otherwise positions below `c` are dropped. */
  method Skip<T>(w: Wrapper<T>, c: Option<int>) returns (r: Wrapper<T>)
    ensures r == Skipped(w, c)
    ensures c.Some? ==> r.items == w.items[Min(Max(c.value, 0), |w.items|)..]
    ensures c.Some? ==> r.ending == w.ending
  {
    if c.None? {
      return w;
    }
    var k := c.value;
    var out: seq<T> := [];
    var idx := 0;
    while idx < |w.items|
      invariant 0 <= idx <= |w.items|
      invariant out == w.items[Min(Max(k, 0), idx)..idx]
    {
      if idx >= k {
        assert w.items[Min(Max(k, 0), idx)..idx + 1] == out + [w.items[idx]];
        out := out + [w.items[idx]];
      }
      idx := idx + 1;
    }
    r := Wrapper(out, w.ending);
  }

  /**
   * `step(s)`: `None` returns the wrapper itself; otherwise the elements whose
   * position `idx` has `idx % s == 0`.  Python's `%` takes the sign of the
   * divisor and Dafny's never is negative, but the two agree on whether the
   * remainder is zero; `s == 0` raises ZeroDivisionError at the first element.
   */
  method Step<T>(w: Wrapper<T>, s: Option<int>) returns (r: Wrapper<T>)
    ensures r == Stepped(w, s)
  {
    if s.None? {
      return w;
    }
    var m := s.value;
    var out: seq<T> := [];
    var idx := 0;
    while idx < |w.items|
      invariant 0 <= idx <= |w.items|
      invariant m == 0 ==> idx == 0 && out == []
      invariant m != 0 ==> out == Strided(w.items[..idx], Abs(m))
    {
      if m == 0 {
        return Wrapper([], Raises(ZeroDivisionError));
      }
      assert w.items[..idx + 1] == w.items[..idx] + [w.items[idx]];
      StridedSnoc(w.items[..idx], w.items[idx], Abs(m));
      ModAbs(idx, m);
      if idx % m == 0 {
        out := out + [w.items[idx]];
      }
      idx := idx + 1;
    }
    assert w.items[..idx] == w.items;
    r := Wrapper(out, w.ending);
  }

  /** `chain(it, before)`: `it` after the wrapper, or before it when `before` is set. */
  function Chain<T>(w: Wrapper<T>, it: Wrapper<T>, before: bool): (r: Wrapper<T>)
    ensures (if before then it.items else w.items) <= r.items
    ensures |r.items| <= |w.items| + |it.items|
    ensures r.ending == Exhausted <==> w.ending == Exhausted && it.ending == Exhausted
    ensures r.ending == Exhausted ==> multiset(r.items) == multiset(w.items) + multiset(it.items)
  {
    if before then Then(it, w) else Then(w, it)
  }

  /** `repeat(t)`: `for _ in range(t): yield from self`. */
  method Repeat<T>(w: Wrapper<T>, t: int) returns (r: Wrapper<T>)
    ensures r == Repeated(w, t)
  {
    var out: seq<T> := [];
    var i := 0;
    while i < t
      invariant 0 <= i <= Max(t, 0)
      invariant out == Copies(w.items, i)
      invariant w.ending.Raises? ==> i == 0
    {
      if w.ending.Raises? {
        assert out + w.items == w.items;
        return Wrapper(out + w.items, w.ending);
      }
      out := out + w.items;
      i := i + 1;
    }
    r := Wrap(out);
  }

  // ---------------------------------------------------------------------
  // Eager consumers
  // ---------------------------------------------------------------------

  /** `fold(c, d)`: the accumulator threaded through `c` from `d`, in order. */
  method Fold<T, U>(w: Wrapper<T>, c: (U, T) -> U, d: U) returns (r: Result<U>)
    ensures w.ending == Exhausted ==> r == Ok(FoldLeft(c, d, w.items))
    ensures w.ending.Raises? ==> r == Err(w.ending.error)
  {
    var acc := d;
    var i := 0;
    while i < |w.items|
      invariant 0 <= i <= |w.items|
      invariant acc == FoldLeft(c, d, w.items[..i])
    {
      assert w.items[..i + 1] == w.items[..i] + [w.items[i]];
      FoldLeftAppend(c, d, w.items[..i], [w.items[i]]);
      acc := c(acc, w.items[i]);
      i := i + 1;
    }
    assert w.items[..i] == w.items;
    if w.ending.Raises? {
      return Err(w.ending.error);
    }
    r := Ok(acc);
  }

  /** `count(f)`: with no `f`, the length of `collect(list)`; otherwise the elements satisfying `f`. */
  method Count<T>(w: Wrapper<T>, f: Option<T -> bool>) returns (r: Result<nat>)
    ensures w.ending.Raises? ==> r == Err(w.ending.error)
    ensures w.ending == Exhausted && f.None? ==> r == Ok(|w.items|)
    ensures w.ending == Exhausted && f.Some? ==> r == Ok(|Filtered(w.items, f.value)|)
    ensures r.Ok? ==> r.value <= |w.items|
  {
    if f.None? {
      var all := Collect(w);
      if all.Err? {
        return Err(all.error);
      }
      return Ok(|all.value|);
    }
    var p := f.value;
    var c := 0;
    var i := 0;
    while i < |w.items|
      invariant 0 <= i <= |w.items|
      invariant c == |Filtered(w.items[..i], p)|
    {
      FilteredSnoc(w.items, i, p);
      if p(w.items[i]) {
        c := c + 1;
      }
      i := i + 1;
    }
    assert w.items[..i] == w.items;
    if w.ending.Raises? {
      return Err(w.ending.error);
    }
    r := Ok(c);
  }

  /**
   * `contains(item)`: true as soon as an element equals `item`; the pass is
   * not continued, so an exception after the match is never met.  `pulled`
   * is how many elements were compared.
   */
  method Contains<T(==)>(w: Wrapper<T>, item: T) returns (r: Result<bool>, ghost pulled: nat)
    ensures r == (if item in w.items then Ok(true)
                  else if w.ending.Raises? then Err(w.ending.error) else Ok(false))
    ensures pulled <= |w.items|
    ensures item in w.items ==> 1 <= pulled && w.items[pulled - 1] == item && item !in w.items[..pulled - 1]
    ensures item !in w.items ==> pulled == |w.items|
  {
    var i := 0;
    while i < |w.items|
      invariant 0 <= i <= |w.items|
      invariant item !in w.items[..i]
    {
      if w.items[i] == item {
        return Ok(true), i + 1;
      }
      assert w.items[..i + 1] == w.items[..i] + [w.items[i]];
      i := i + 1;
    }
    assert w.items[..i] == w.items;
    pulled := i;
    if w.ending.Raises? {
      return Err(w.ending.error), pulled;
    }
    r := Ok(false);
  }

  /** `exhaust()`: pulls every element and discards it. */
  method Exhaust<T>(w: Wrapper<T>) returns (r: Result<()>, ghost pulled: nat)
    ensures r == (if w.ending.Raises? then Err(w.ending.error) else Ok(()))
    ensures pulled == |w.items|
  {
    var i := 0;
    while i < |w.items|
      invariant 0 <= i <= |w.items|
    {
      i := i + 1;
    }
    pulled := i;
    if w.ending.Raises? {
      return Err(w.ending.error), pulled;
    }
    r := Ok(());
  }

  /** `item in a`, as `__contains__`. */
  method In<T(==)>(w: Wrapper<T>, item: T) returns (r: Result<bool>)
    ensures r == (if item in w.items then Ok(true)
                  else if w.ending.Raises? then Err(w.ending.error) else Ok(false))
  {
    ghost var pulled;
    r, pulled := Contains(w, item);
  }

  // ---------------------------------------------------------------------
  // Operator sugar
  // ---------------------------------------------------------------------

  /** `a + it`. */
  function Add<T>(w: Wrapper<T>, other: Wrapper<T>): (r: Wrapper<T>)
    ensures w.ending == Exhausted ==> r == Wrapper(w.items + other.items, other.ending)
    ensures w.ending.Raises? ==> r == w
  {
    Chain(w, other, false)
  }

  /** `it + a`, reached through `a.__radd__(it)`. */
  function RAdd<T>(w: Wrapper<T>, other: Wrapper<T>): (r: Wrapper<T>)
    ensures other.ending == Exhausted ==> r == Wrapper(other.items + w.items, w.ending)
    ensures other.ending.Raises? ==> r == other
  {
    Chain(w, other, true)
  }

  /** `a * t`. */
  function Mul<T>(w: Wrapper<T>, t: int): (r: Wrapper<T>)
    ensures t <= 0 ==> r == Wrap([])
    ensures t > 0 && w.ending.Raises? ==> r == w
    ensures t > 0 && w.ending == Exhausted ==>
      && r.ending == Exhausted
      && |r.items| == t * |w.items|
      && (forall k :: 0 <= k < |r.items| ==> |w.items| > 0 && r.items[k] == w.items[k % |w.items|])
  {
    RepeatContent(w, t);
    Repeated(w, t)
  }

  /** `t * a`, reached through `a.__rmul__(t)`. */
  function RMul<T>(t: int, w: Wrapper<T>): (r: Wrapper<T>)
    ensures t <= 0 ==> r == Wrap([])
    ensures t > 0 && w.ending.Raises? ==> r == w
    ensures t > 0 && w.ending == Exhausted ==>
      && r.ending == Exhausted
      && |r.items| == t * |w.items|
      && (forall k :: 0 <= k < |r.items| ==> |w.items| > 0 && r.items[k] == w.items[k % |w.items|])
  {
    Mul(w, t)
  }

  /** `a | f`. */
  function Or<T, U>(w: Wrapper<T>, f: T -> U): (r: Wrapper<U>)
    ensures |r.items| == |w.items| && r.ending == w.ending
    ensures forall i :: 0 <= i < |w.items| ==> r.items[i] == f(w.items[i])
  {
    Map(w, f)
  }

  /** Each operator is the named method it stands for. */
  lemma OperatorSugar<T, U>(w: Wrapper<T>, other: Wrapper<T>, t: int, f: T -> U)
    ensures Add(w, other) == Chain(w, other, false)
    ensures RAdd(w, other) == Chain(w, other, true)
    ensures Mul(w, t) == Repeated(w, t) && RMul(t, w) == Mul(w, t)
    ensures Or(w, f) == Map(w, f)
  {
  }

  // ---------------------------------------------------------------------
  // Indexing and slicing
  // ---------------------------------------------------------------------

  /** A non-slice index: an `int` (exactly, so not a `bool`), or any other key. */
  datatype Key = IntKey(i: int) | OtherKey

  /** A Python `slice(start, stop, step)`; a missing component is `None`. */
  datatype SliceKey = SliceKey(start: Option<int>, stop: Option<int>, step: Option<int>)

  /**
   * `a[key]` for a non-slice key.  `native` is what the source's own
   * `__getitem__` returns, `None` when it raises; then an `int` key is served
   * by `skip(key).take(1).collect(list)[0]` and any other key is refused.
   */
  function GetItem<T>(w: Wrapper<T>, key: Key, native: Option<T>): (r: Result<T>)
    ensures native.Some? ==> r == Ok(native.value)
    ensures native.None? && key.OtherKey? ==> r == Err(IndexError)
    ensures native.None? && key.IntKey? ==>
      var k := Max(key.i, 0);
      r == (if k + 1 < |w.items| then Ok(w.items[k])
            else if w.ending.Raises? then Err(w.ending.error)
            else if k < |w.items| then Ok(w.items[k])
            else Err(IndexError))
  {
    if native.Some? then Ok(native.value)
    else match key
      case OtherKey => Err(IndexError)
      case IntKey(i) =>
        match Collect(Taken(Skipped(w, Some(i)), Some(1)))
        case Err(e) => Err(e)
        case Ok(xs) => if |xs| == 0 then Err(IndexError) else Ok(xs[0])
  }

  /**
   * The guard of the slice fallback, `start < 0 or step < 1 or stop < 0`,
   * evaluated left to right: comparing a missing component with 0 raises
   * TypeError, a negative bound or a step below 1 raises ValueError.
   */
  function SliceGuard(key: SliceKey): (r: Option<Error>)
    ensures r.None? <==>
      && key.start.Some? && key.step.Some? && key.stop.Some?
      && key.start.value >= 0 && key.step.value >= 1 && key.stop.value >= 0
    ensures r.Some? ==> r.value == TypeError || r.value == ValueError
    ensures key.start.Some? && key.step.Some? && key.stop.Some? && r.Some? ==> r.value == ValueError
    ensures key.start.None? ==> r == Some(TypeError)
    ensures key.start.Some? && key.start.value < 0 ==> r == Some(ValueError)
  {
    if key.start.None? then Some(TypeError)
    else if key.start.value < 0 then Some(ValueError)
    else if key.step.None? then Some(TypeError)
    else if key.step.value < 1 then Some(ValueError)
    else if key.stop.None? then Some(TypeError)
    else if key.stop.value < 0 then Some(ValueError)
    else None
  }

  /**
   * `a[start:stop:step]`.  `native` is the source's own slice, `None` when
   * slicing raises; then the slice becomes `skip(start).step(step).take(stop)`,
   * where `stop` counts elements rather than marking a position.
   */
  function GetSlice<T>(w: Wrapper<T>, key: SliceKey, native: Option<seq<T>>): (r: Result<Wrapper<T>>)
    ensures native.Some? ==> r == Ok(Wrap(native.value))
    ensures native.None? && r.Err? ==> r.error == TypeError || r.error == ValueError
    ensures native.None? && key.start.Some? && key.stop.Some? && key.step.Some? ==>
      (r.Err? <==> key.start.value < 0 || key.step.value < 1 || key.stop.value < 0)
    ensures native.None? && (key.start.None? || key.stop.None? || key.step.None?) ==> r.Err?
    // the guard is evaluated left to right: the first failing test decides the exception
    ensures native.None? && key.start.None? ==> r == Err(TypeError)
    ensures native.None? && key.start.Some? && key.start.value < 0 ==> r == Err(ValueError)
    ensures native.None? && key.start.Some? && key.start.value >= 0 && key.step.None? ==> r == Err(TypeError)
    ensures native.None? && key.start.Some? && key.start.value >= 0 && key.step.Some? && key.step.value < 1 ==>
      r == Err(ValueError)
    ensures (native.None? && key.start.Some? && key.start.value >= 0 && key.step.Some? && key.step.value >= 1
      && key.stop.None?) ==> r == Err(TypeError)
    ensures (native.None? && key.start.Some? && key.start.value >= 0 && key.step.Some? && key.step.value >= 1
      && key.stop.Some? && key.stop.value < 0) ==> r == Err(ValueError)
  {
    if native.Some? then Ok(Wrap(native.value))
    else match SliceGuard(key)
      case Some(e) => Err(e)
      case None =>
        Ok(Taken(Stepped(Skipped(w, key.start), key.step), key.stop))
  }

  /**
   * `rev()`: first `self[::-1]`; when the source cannot slice natively, the
   * fallback's guard raises (the slice has no start) and the wrapper is
   * materialised into a list, which Python reverses natively.
   */
  function Rev<T>(w: Wrapper<T>, native: Option<seq<T>>): (r: Result<Wrapper<T>>)
    ensures native.Some? ==> r == Ok(Wrap(native.value))
    ensures native.None? && w.ending == Exhausted ==> r == Ok(Wrap(Reversed(w.items)))
    ensures native.None? && w.ending.Raises? ==> r == Err(w.ending.error)
  {
    match GetSlice(w, SliceKey(None, None, Some(-1)), native)
    case Ok(v) => Ok(v)
    case Err(_) =>
      match Collect(w)
      case Err(e) => Err(e)
      case Ok(xs) => GetSlice(Wrap(xs), SliceKey(None, None, Some(-1)), Some(Reversed(xs)))
  }

  // ---------------------------------------------------------------------
  // Properties of the combinators
  // ---------------------------------------------------------------------


  /** Mapping twice is mapping the composition once. */
  lemma MapCompose<T, U, V>(w: Wrapper<T>, f: T -> U, g: U -> V)
    ensures Map(Map(w, f), g) == Map(w, x => g(f(x)))
  {
    assert Map(Map(w, f), g).items == Map(w, x => g(f(x))).items;
  }

  /** Filtering a chain filters each part, keeping their order. */
  lemma {:induction false} FilterOrder<T>(w: Wrapper<T>, v: Wrapper<T>, f: T -> bool)
    ensures Filter(Chain(w, v, false), f) ==
      (if w.ending.Raises? then Filter(w, f)
       else Wrapper(Filtered(w.items, f) + Filtered(v.items, f), v.ending))
  {
    FilteredAppend(w.items, v.items, f);
  }

  /** Taking the same count twice is taking it once. */
  lemma TakeIdempotent<T>(w: Wrapper<T>, c: Option<int>)
    ensures Taken(Taken(w, c), c) == Taken(w, c)
  {
  }

  /** Two takes keep the smaller count. */
  lemma TakeTake<T>(w: Wrapper<T>, a: int, b: int)
    ensures Taken(Taken(w, Some(a)), Some(b)) == Taken(w, Some(Min(a, b)))
  {
  }

  /** Two skips drop the sum of their counts. */
  lemma SkipSkip<T>(w: Wrapper<T>, a: nat, b: nat)
    ensures Skipped(Skipped(w, Some(a)), Some(b)) == Skipped(w, Some(a + b))
  {
    var n := |w.items|;
    assert w.items[Min(a, n)..][Min(b, n - Min(a, n))..] == w.items[Min(a + b, n)..];
  }

  /**
   * `step(s)` with `s != 0` keeps the elements at positions 0, |s|, 2|s|, ...:
   * ceil(n / |s|) of them, in their original order.
   */
  lemma {:induction false} StepPositions<T>(w: Wrapper<T>, s: int)
    requires s != 0
    ensures var r := Stepped(w, Some(s));
      && r.ending == w.ending
      && |r.items| * Abs(s) >= |w.items|
      && (|w.items| > 0 ==> (|r.items| - 1) * Abs(s) < |w.items|)
      && (forall j :: 0 <= j < |r.items| ==> j * Abs(s) < |w.items| && r.items[j] == w.items[j * Abs(s)])
  {
    var m := Abs(s);
    StridedLength(w.items, m);
    forall j | 0 <= j < |Strided(w.items, m)|
      ensures j * m < |w.items| && Strided(w.items, m)[j] == w.items[j * m]
    {
      StridedAt(w.items, m, j);
    }
  }

  /** `step(1)` keeps every element. */
  lemma StepOne<T>(w: Wrapper<T>)
    ensures Stepped(w, Some(1)) == w
  {
    StridedOne(w.items);
  }

  /** `a + it` and `chain(it)` yield the wrapper then `it`; `it + a` and `chain(it, before=True)` the reverse. */
  lemma ChainContent<T>(w: Wrapper<T>, it: Wrapper<T>)
    ensures w.ending == Exhausted ==> Chain(w, it, false) == Wrapper(w.items + it.items, it.ending)
    ensures it.ending == Exhausted ==> Chain(w, it, true) == Wrapper(it.items + w.items, w.ending)
    ensures w.ending.Raises? ==> Chain(w, it, false) == w
    ensures it.ending.Raises? ==> Chain(w, it, true) == it
  {
  }

  /** Chaining is associative. */
  lemma ChainAssoc<T>(a: Wrapper<T>, b: Wrapper<T>, c: Wrapper<T>)
    ensures Chain(Chain(a, b, false), c, false) == Chain(a, Chain(b, c, false), false)
  {
    if a.ending == Exhausted && b.ending == Exhausted {
      assert (a.items + b.items) + c.items == a.items + (b.items + c.items);
    }
  }

  /**
   * `repeat(t)`, `a * t` and `t * a` over a re-iterable source yield `t`
   * copies of it, `t * n` elements with element `k` equal to element `k % n`.
   */
  lemma {:induction false} RepeatContent<T>(w: Wrapper<T>, t: int)
    ensures t <= 0 ==> Repeated(w, t) == Wrap([])
    ensures t > 0 && w.ending.Raises? ==> Repeated(w, t) == w
    ensures t > 0 && w.ending == Exhausted ==>
      var r := Repeated(w, t);
      && r.ending == Exhausted
      && |r.items| == t * |w.items|
      && (forall k :: 0 <= k < |r.items| ==> |w.items| > 0 && r.items[k] == w.items[k % |w.items|])
  {
    if t > 0 && w.ending == Exhausted {
      CopiesLength(w.items, t);
      forall k | 0 <= k < |Copies(w.items, t)|
        ensures |w.items| > 0 && Copies(w.items, t)[k] == w.items[k % |w.items|]
      {
        CopiesAt(w.items, t, k);
      }
    }
  }

  /** Repeating `a + b` times is repeating `a` times followed by `b` times. */
  lemma RepeatSplit<T>(w: Wrapper<T>, a: nat, b: nat)
    ensures Repeated(w, a + b) == Chain(Repeated(w, a), Repeated(w, b), false)
  {
    CopiesAppend(w.items, a, b);
    assert Copies(w.items, 0) == [];
    assert [] + Copies(w.items, b) == Copies(w.items, b);
    assert Copies(w.items, a) + [] == Copies(w.items, a);
  }

  /** Folding a chain folds the second part from the first part's result. */
  lemma FoldChain<T, U>(a: Wrapper<T>, b: Wrapper<T>, f: (U, T) -> U, d: U)
    requires a.ending == Exhausted
    ensures FoldLeft(f, d, Chain(a, b, false).items) == FoldLeft(f, FoldLeft(f, d, a.items), b.items)
  {
    FoldLeftAppend(f, d, a.items, b.items);
  }

  /** `count()` is `count(f)` for an `f` that always holds. */
  lemma CountAll<T>(s: seq<T>)
    ensures |Filtered(s, x => true)| == |s|
  {
    FilteredAll(s, x => true);
  }

  /** The first `stop` elements of a stride over `s`: which positions, and how the pass ends. */
  lemma StridedPrefix<T>(s: seq<T>, e: Ending, stop: nat, m: nat)
    requires m >= 1
    ensures var out := Taken(Wrapper(Strided(s, m), e), Some(stop));
      && |out.items| <= stop
      && (forall j :: 0 <= j < |out.items| ==> j * m < |s| && out.items[j] == s[j * m])
      && (|out.items| == stop || |out.items| * m >= |s|)
      && out.ending == (if stop * m < |s| then Exhausted else e)
  {
    var strided := Strided(s, m);
    var l := |strided|;
    StridedLength(s, m);
    forall j | 0 <= j < Min(stop, l)
      ensures j * m < |s| && strided[j] == s[j * m]
    {
      StridedAt(s, m, j);
    }
    if stop < l {
      MulMono(stop, l - 1, m);
    } else {
      MulMono(l, stop, m);
    }
  }

  /**
   * The slice fallback yields the elements at positions start, start + step,
   * start + 2 * step, ..., stopping after `stop` of them or at the end;
   * the pass only reaches the source's end (and an exception there) when
   * fewer than `stop + 1` such positions exist.
   */
  lemma {:induction false} SliceFallback<T>(w: Wrapper<T>, start: nat, stop: nat, step: int)
    requires step >= 1
    ensures GetSlice(w, SliceKey(Some(start), Some(stop), Some(step)), None).Ok?
    ensures var out := GetSlice(w, SliceKey(Some(start), Some(stop), Some(step)), None).value;
      && |out.items| <= stop
      && (forall j :: 0 <= j < |out.items| ==>
            start + j * step < |w.items| && out.items[j] == w.items[start + j * step])
      && (|out.items| == stop || start + |out.items| * step >= |w.items|)
      && out.ending == (if start + stop * step < |w.items| then Exhausted else w.ending)
  {
    var n := |w.items|;
    var rest := w.items[Min(start, n)..];
    SliceUnfold(w, start, stop, step);
    var out := Taken(Wrapper(Strided(rest, step), w.ending), Some(stop));
    StridedPrefix(rest, w.ending, stop, step);
    if start >= n {
      assert rest == [];
      MulMono(0, stop, step);
    } else {
      ShiftedPositions(w.items, start, out.items, step);
    }
  }

  /** Positions in a suffix `items[start..]` are positions in `items` shifted by `start`. */
  lemma ShiftedPositions<T>(items: seq<T>, start: nat, picked: seq<T>, m: nat)
    requires start <= |items|
    requires forall j :: 0 <= j < |picked| ==> j * m < |items| - start && picked[j] == items[start..][j * m]
    ensures forall j :: 0 <= j < |picked| ==> start + j * m < |items| && picked[j] == items[start + j * m]
  {
  }

  /** With a complete, valid key and no native slice, the fallback is a take of a stride. */
  lemma SliceUnfold<T>(w: Wrapper<T>, start: nat, stop: nat, step: int)
    requires step >= 1
    ensures GetSlice(w, SliceKey(Some(start), Some(stop), Some(step)), None)
      == Ok(Taken(Wrapper(Strided(w.items[Min(start, |w.items|)..], step), w.ending), Some(stop)))
  {
    var key := SliceKey(Some(start), Some(stop), Some(step));
    assert SliceGuard(key) == None;
    assert Skipped(w, Some(start)) == Wrapper(w.items[Min(start, |w.items|)..], w.ending);
  }

  /** Reversing twice, natively or through a list, gives back the elements in order. */
  lemma RevTwice<T>(w: Wrapper<T>)
    requires w.ending == Exhausted
    ensures Rev(w, None).Ok? && Rev(Rev(w, None).value, None) == Ok(w)
    ensures Rev(w, Some(Reversed(w.items))) == Rev(w, None)
  {
    ReversedTwice(w.items);
  }

  // ---------------------------------------------------------------------
  // Worked examples from the docstrings and tests
  // ---------------------------------------------------------------------

  /** `IterWrapper({x: x + 1 for x in range(10)})[1:2:3].collect(list) == [1, 4]`. */
  lemma DictSliceExample()
    ensures GetSlice(Wrap([0, 1, 2, 3, 4, 5, 6, 7, 8, 9]), SliceKey(Some(1), Some(2), Some(3)), None)
      == Ok(Wrap([1, 4]))
  {
    var s := [0, 1, 2, 3, 4, 5, 6, 7, 8, 9];
    var a, b, c := [1, 2, 3, 4, 5, 6, 7, 8, 9], [4, 5, 6, 7, 8, 9], [7, 8, 9];
    assert s[Min(1, |s|)..] == a;
    assert a[Min(3, |a|)..] == b;
    assert b[Min(3, |b|)..] == c;
    assert c[Min(3, |c|)..] == [];
    assert Strided(c, 3) == [7];
    assert Strided(b, 3) == [4, 7];
    assert Strided(a, 3) == [1, 4, 7];
    assert Stepped(Skipped(Wrap(s), Some(1)), Some(3)) == Wrap([1, 4, 7]);
    assert [1, 4, 7][..2] == [1, 4];
  }

  /** `[2:8:2]` over 0..9 on a source that cannot slice: `stop` counts elements. */
  lemma RangeSliceExample()
    ensures GetSlice(Wrap([0, 1, 2, 3, 4, 5, 6, 7, 8, 9]), SliceKey(Some(2), Some(8), Some(2)), None)
      == Ok(Wrap([2, 4, 6, 8]))
  {
    var s := [0, 1, 2, 3, 4, 5, 6, 7, 8, 9];
    var a, b, c, d := [2, 3, 4, 5, 6, 7, 8, 9], [4, 5, 6, 7, 8, 9], [6, 7, 8, 9], [8, 9];
    assert s[Min(2, |s|)..] == a;
    assert a[Min(2, |a|)..] == b;
    assert b[Min(2, |b|)..] == c;
    assert c[Min(2, |c|)..] == d;
    assert d[Min(2, |d|)..] == [];
    assert Strided(d, 2) == [8];
    assert Strided(c, 2) == [6, 8];
    assert Strided(b, 2) == [4, 6, 8];
    assert Strided(a, 2) == [2, 4, 6, 8];
  }

  /** The `repeat` docstring example: `range(1, 4)` repeated 3 times. */
  lemma RepeatExample()
    ensures Collect(Repeated(Wrap([1, 2, 3]), 3)) == Ok([1, 2, 3, 1, 2, 3, 1, 2, 3])
  {
    var s := [1, 2, 3];
    assert Copies(s, 1) == [] + s == s;
    assert Copies(s, 2) == s + s == [1, 2, 3, 1, 2, 3];
    assert Copies(s, 3) == [1, 2, 3, 1, 2, 3] + s == [1, 2, 3, 1, 2, 3, 1, 2, 3];
    assert Repeated(Wrap(s), 3) == Wrap([1, 2, 3, 1, 2, 3, 1, 2, 3]);
  }

  /** The `chain` docstring example: `range(1, 6)` chained with `range(6, 0, -1)`. */
  lemma ChainExample()
    ensures Collect(Chain(Wrap([1, 2, 3, 4, 5]), Wrap([6, 5, 4, 3, 2, 1]), false))
      == Ok([1, 2, 3, 4, 5, 6, 5, 4, 3, 2, 1])
  {
    assert [1, 2, 3, 4, 5] + [6, 5, 4, 3, 2, 1] == [1, 2, 3, 4, 5, 6, 5, 4, 3, 2, 1];
  }

  /** The operator examples of the class docstring, with `i1 = IterWrapper([1, 2, 3])`. */
  lemma OperatorExamples()
    ensures Collect(Add(Wrap([1, 2, 3]), Wrap([4, 5, 6]))) == Ok([1, 2, 3, 4, 5, 6])
    ensures Collect(Mul(Wrap([1, 2, 3]), 3)) == Ok([1, 2, 3, 1, 2, 3, 1, 2, 3])
  {
    RepeatExample();
    var i1 := Wrap([1, 2, 3]);
    assert Mul(i1, 3) == Repeated(i1, 3);
    assert [1, 2, 3] + [4, 5, 6] == [1, 2, 3, 4, 5, 6];
    assert Add(i1, Wrap([4, 5, 6])) == Wrap([1, 2, 3, 4, 5, 6]);
  }



  /** The map case of test_iterwrapper.py, over `range(0, 9)`. */
  lemma MapTestExample()
    ensures Collect(Taken(Map(Wrap([0, 1, 2, 3, 4, 5, 6, 7, 8]), x => x + 1), Some(3))) == Ok([1, 2, 3])
  {
    var m := Map(Wrap([0, 1, 2, 3, 4, 5, 6, 7, 8]), x => x + 1);
    assert m.items[..3] == [1, 2, 3];
  }

  /** The slice guard's order: `[-1:]` fails on `start` before `step` is compared, `[:3]` on `start`, `[0:3:0]` on `step`. */
  lemma SliceGuardExamples()
    ensures GetSlice(Wrap([5, 7]), SliceKey(Some(-1), None, None), None) == Err(ValueError)
    ensures GetSlice(Wrap([5, 7]), SliceKey(None, Some(3), None), None) == Err(TypeError)
    ensures GetSlice(Wrap([5, 7]), SliceKey(Some(0), Some(3), Some(0)), None) == Err(ValueError)
    ensures GetSlice(Wrap([5, 7]), SliceKey(Some(0), None, Some(1)), None) == Err(TypeError)
  {
  }

  /**
   * On a source that cannot index, a negative integer index serves the first
   * element, and an element followed by an exception is not served, because
   * `take(1)` pulls once more before it breaks.
   */
  lemma IndexExamples()
    ensures GetItem(Wrap([5, 7]), IntKey(-3), None) == Ok(5)
    ensures GetItem(Wrapper([5, 7], Raises(TypeError)), IntKey(0), None) == Ok(5)
    ensures GetItem(Wrapper([5, 7], Raises(TypeError)), IntKey(1), None) == Err(TypeError)
    ensures GetItem(Wrap([5, 7]), IntKey(1), None) == Ok(7)
    ensures GetItem(Wrap([5, 7]), IntKey(2), None) == Err(IndexError)
    ensures GetItem(Wrap([5, 7]), OtherKey, None) == Err(IndexError)
  {
  }
}
