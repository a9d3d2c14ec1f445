/**
 * A model of the free helpers of iterwrapper/misc.py.  `range_inf` and
 * `tail_inf` never end, so they are modelled by the first `k` values a
 * consumer pulls from them.
 */
module Misc {

  import opened Iters

  /** `k` copies of `d`. */
  function Fill<T>(d: T, k: nat): (r: seq<T>)
    ensures |r| == k
    ensures forall j :: 0 <= j < k ==> r[j] == d
  {
    if k == 0 then [] else Fill(d, k - 1) + [d]
  }

  /**
   * The first `k` values of `range_inf(start, step)`: the loop yields
   * `start` and then adds `step` to it, forever.
   */
  method RangeInf(start: int, step: int, k: nat) returns (out: seq<int>)
    ensures |out| == k
    ensures forall j :: 0 <= j < k ==> out[j] == start + j * step
  {
    out := [];
    var cur := start;
    while |out| < k
      invariant |out| <= k
      invariant cur == start + |out| * step
      invariant forall j :: 0 <= j < |out| ==> out[j] == start + j * step
    {
      out := out + [cur];
      cur := cur + step;
    }
  }

  /** Consecutive values of `range_inf` differ by `step`. */
  lemma {:induction false} RangeInfSteps(out: seq<int>, start: int, step: int)
    requires forall j :: 0 <= j < |out| ==> out[j] == start + j * step
    ensures forall j :: 0 <= j < |out| - 1 ==> out[j + 1] - out[j] == step
  {
    forall j | 0 <= j < |out| - 1 ensures out[j + 1] - out[j] == step {
      assert (j + 1) * step == j * step + step;
    }
  }

  /**
   * The first `k` values of `tail_inf(i, d)`: `yield from i`, then `d`
   * forever.
   */
  method TailInf<T>(i: seq<T>, d: T, k: nat) returns (out: seq<T>)
    ensures |out| == k
    ensures forall j :: 0 <= j < k ==> out[j] == (if j < |i| then i[j] else d)
    ensures k >= |i| ==> out == i + Fill(d, k - |i|)
  {
    out := [];
    var n := 0;
    while n < |i| && |out| < k
      invariant n <= |i| && n == |out| <= k
      invariant out == i[..n]
    {
      out := out + [i[n]];
      n := n + 1;
    }
    while |out| < k
      invariant |out| <= k
      invariant |out| < |i| ==> |out| == k
      invariant forall j :: 0 <= j < |out| ==> out[j] == (if j < |i| then i[j] else d)
    {
      out := out + [d];
    }
    if k >= |i| {
      assert out == i + Fill(d, k - |i|);
    }
  }

  /**
   * `all_eq(i, n)` over one pass of `i`: `False` at the first element that
   * differs from `n`, without pulling further, so an exception after it is
   * never met; `True` when none differs and the pass is exhausted, so also
   * when `i` is empty; the exception that ends the pass otherwise.
   */
  method AllEq<T(==)>(i: Wrapper<T>, n: T) returns (r: Result<bool>)
    ensures r == Ok(false) <==> exists j :: 0 <= j < |i.items| && i.items[j] != n
    ensures r == Ok(true) <==> (forall j :: 0 <= j < |i.items| ==> i.items[j] == n) && i.ending == Exhausted
    ensures r.Err? <==> (forall j :: 0 <= j < |i.items| ==> i.items[j] == n) && i.ending.Raises?
    ensures r.Err? ==> i.ending == Raises(r.error)
  {
    var k := 0;
    while k < |i.items|
      invariant 0 <= k <= |i.items|
      invariant forall j :: 0 <= j < k ==> i.items[j] == n
    {
      if i.items[k] != n {
        return Ok(false);
      }
      k := k + 1;
    }
    match i.ending
    case Exhausted => r := Ok(true);
    case Raises(e) => r := Err(e);
  }

  /** A mismatch is reported even when the pass would raise after it. */
  method AllEqStopsEarly() returns (r: Result<bool>)
    ensures r == Ok(false)
  {
    var pass := Wrapper([1, 2, 1], Raises(TypeError));
    assert pass.items[1] != 1;
    r := AllEq(pass, 1);
  }
}
