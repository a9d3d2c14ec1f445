# IterWrapper in Dafny

A model of `IterWrapper`, a Python wrapper that puts lazy, chainable
combinators (`map`, `filter`, `flat`, `take`, `skip`, `step`, `chain`,
`repeat`) and eager consumers (`fold`, `count`, `contains`, `exhaust`,
`collect`) on top of any iterable, together with its indexing and slicing
fallback for sources that cannot index, its operator sugar, and the three
free helpers `range_inf`, `tail_inf` and `all_eq`.

## How the model reads

- `Iters.Wrapper<T>` is one pass over a wrapper: `items`, the finite
  sequence of elements it yields in order, and `ending`, how the pass ends
  after them (`Exhausted`, or `Raises(e)` when the next pull raises `e`).
  `Wrap(s)` is `IterWrapper(s)` around a list or range. Sources are finite
  and re-iterable, so every pass yields the same.
- Each lazy combinator is a specification function on passes (`Taken`,
  `Skipped`, `Stepped`, `Repeated`, `Flattened`, `Filtered`, `Chain`). A
  combinator whose generator body is a counting loop (`take`, `skip`,
  `step`, `repeat`, `flat`) is also a method with that loop, proved equal
  to its function. Consumers (`fold`, `count`, `contains`, `exhaust`) are
  methods with their loops. Their results are `Result<T>` values: the
  exception that ends a pass is returned as `Err(e)`.
- Pipelines are demand driven, and the model keeps that where it shows:
  `take(c)` breaks at the element at position `c` and so never meets an
  exception after it; `contains` stops at the first match; `step(0)`
  raises `ZeroDivisionError` only when its first element is pulled.
- `__getitem__` first asks the source's own indexing. That call is foreign,
  so it is a parameter `native`: `Some(v)` when the source answered, `None`
  when it raised. The fallback is modelled exactly: an `int` index is
  served by `skip(i).take(1).collect(list)[0]`, any other key raises
  `IndexError`, and a slice is guarded by `start < 0 or step < 1 or stop < 0`
  evaluated left to right before becoming `skip(start).step(step).take(stop)`.
- `iterwrapper/misc.py`'s infinite generators are modelled by the first `k`
  values a consumer pulls from them.
- `all_eq` reads its iterable as one pass, like a wrapper, so that its
  early `return False` is observable: a mismatch is reported even when the
  pass would raise after it.

## Behaviour worth noting

- The slice fallback's `stop` is a count of elements, not an end position:
  `[2:8:2]` over 0..9 yields `[2, 4, 6, 8]` on a source that cannot slice
  (only a natively sliceable `range` gives `[2, 4, 6]`).
- The fallback's guard `start < 0 or step < 1 or stop < 0` is evaluated left
  to right, so the first test that fails decides the exception: the first
  missing component it reaches raises `TypeError` (from comparing `None`
  with a number), and a bound or step out of range raises `ValueError`.
  `[-1:]` raises `ValueError`, `[:3]` raises `TypeError`.
- A negative integer index is not refused: `skip` of a negative count keeps
  everything, so the fallback returns the first element.
- A non-integer key raises `IndexError`.
- The integer fallback `skip(k).take(1)` pulls one element past element `k`
  before its break test (iters.py:204-206), so on a pass that raises right
  after element `k`, `a[k]` raises that exception instead of returning the
  element.
- `step(s)` with a negative `s` keeps positions divisible by `|s|`, because
  Python's `%` is zero exactly when Dafny's is; `step(0)` raises
  `ZeroDivisionError` on a non-empty pass.

## Model

| member | source | states |
|---|---|---|
| `Iters.Wrap` | iters.py:79-84 | wrapping a finite sequence gives a pass that `collect(list)` turns back into that sequence |
| `Iters.Collect` | iters.py:375-396 | `collect(list)` succeeds exactly when the pass is exhausted, giving its elements in order, and otherwise returns the exception that ends it |
| `Iters.Map` | iters.py:143 | `map(f)` yields `f` of each element at the same position, as many elements, and ends as the source does |
| `Iters.MapCompose` | iters.py:127-143 | `map(f).map(g)` equals `map` of the composition |
| `Iters.Filter` | iters.py:160 | `filter(f)` yields no more elements than the source, each one from the source and satisfying `f`; an element satisfying `f` occurs as often as in the source, one failing `f` not at all; the pass ends as the source does |
| `Iters.FilteredMultiset` | iters.py:160 | filtering keeps every occurrence of an element that passes and none of one that fails, and adds no element |
| `Iters.FilteredAppend` | iters.py:160 | filtering a concatenation is the concatenation of the filtered parts, which fixes the result's order as the source's |
| `Iters.FilterOrder` | iters.py:160 | filtering a chain filters each part in order |
| `Iters.Flat` | iters.py:174-182 | the flattening loop yields the elements of each iterable element in turn and every other element as it is, then ends as the source does |
| `Iters.FlattenedAppend` | iters.py:174-182 | flattening distributes over concatenation |
| `Iters.FlattenedLeaves` | iters.py:176-180 | when no element is iterable, `flat()` yields the source unchanged |
| `Iters.Take` | iters.py:200-209 | `take(None)` is the wrapper itself; `take(c)` yields exactly the first `min(max(c,0), n)` elements in order, and ends without reaching the source's end when fewer than `n` are kept |
| `Iters.TakeIdempotent` | iters.py:200-209 | `take(c).take(c)` equals `take(c)` |
| `Iters.TakeTake` | iters.py:200-209 | `take(a).take(b)` equals `take(min(a, b))` |
| `Iters.Skip` | iters.py:226-234 | `skip(None)` is the wrapper itself; `skip(c)` yields the elements from position `min(max(c,0), n)` on and ends as the source does |
| `Iters.SkipSkip` | iters.py:226-234 | `skip(a).skip(b)` equals `skip(a + b)` for non-negative counts |
| `Iters.Step` | iters.py:251-259 | `step(None)` is the wrapper itself; for `s != 0` the `idx % s == 0` loop yields the elements at positions divisible by `s`, in order, and ends as the source does; `s == 0` raises `ZeroDivisionError` on a non-empty pass |
| `Iters.StepPositions` | iters.py:254-257 | for `s != 0` the result has `ceil(n / abs(s))` elements and element `j` is the source's element at `j * abs(s)` |
| `Iters.StepOne` | iters.py:254-257 | `step(1)` yields every element |
| `Iters.Chain` | iters.py:288-314 | the first part's elements (the wrapper, or `it` with `before=True`) are a prefix of the result, the result has at most both parts' elements, it is exhausted exactly when both parts are, and then holds exactly both parts' elements |
| `Iters.ChainContent` | iters.py:306-314 | `chain(it)` yields the wrapper then `it`, `chain(it, before=True)` yields `it` then the wrapper, and an exception in the first part ends the pass |
| `Iters.ChainAssoc` | iters.py:306-314 | chaining is associative |
| `Iters.Add` | iters.py:109-110 | `a + b` yields `a` then `b` and ends as `b` does, or stops at `a`'s exception |
| `Iters.RAdd` | iters.py:112-113 | `b + a` with `b` on the left yields `b` then `a`, or stops at `b`'s exception |
| `Iters.Mul` | iters.py:115-116 | `a * t` yields nothing for `t <= 0`, the first pass when it raises, and otherwise `t * n` elements, element `k` being the source's element `k % n` |
| `Iters.RMul` | iters.py:118-119 | `t * a` behaves as `a * t` |
| `Iters.Or` | iters.py:121-122 | `a` piped into `f` yields `f` of each element at the same position and ends as `a` does |
| `Iters.OperatorSugar` | iters.py:109-122 | `a + b` is `chain(b)`, `b + a` is `chain(b, before=True)`, `a * t` and `t * a` are `repeat(t)`, and the pipe operator (`__or__`) is `map(f)` |
| `Iters.Repeat` | iters.py:332-336 | the `range(t)` loop yields nothing for `t <= 0`, the first pass alone when it raises, and otherwise `t` copies of the elements |
| `Iters.RepeatContent` | iters.py:332-336 | `repeat(t)` yields nothing for `t <= 0`, stops with the first pass that raises, and otherwise yields `t * n` elements, element `k` being the source's element `k % n` |
| `Iters.RepeatSplit` | iters.py:332-336 | for every pass, raising or not, repeating `a + b` times is repeating `a` times chained with `b` times |
| `Iters.Fold` | iters.py:357-360 | `fold(c, d)` is the left fold of `c` over the elements from `d`, or the exception that ends the pass |
| `Iters.FoldLeftAppend` | iters.py:357-360 | folding a concatenation folds the second part from the first part's result |
| `Iters.FoldChain` | iters.py:357-360 | folding `a.chain(b)` folds `b` from the fold of `a` |
| `Iters.Count` | iters.py:482-489 | `count()` is the number of elements, `count(f)` the number satisfying `f`, never more than `n`; an exception ending the pass is returned |
| `Iters.CountAll` | iters.py:482-489 | counting with an always-true condition gives `n`, as `count()` does |
| `Iters.Contains` | iters.py:508-511 | `contains(item)` is true iff some element equals `item`; it compares elements up to and including the first match and no further, so an exception after the match is never met |
| `Iters.In` | iters.py:124-125 | `item in a` gives the same answer as `contains(item)` |
| `Iters.Exhaust` | iters.py:462-463 | `exhaust()` pulls every element and reports the exception that ends the pass, if any |
| `Iters.GetItem` | iters.py:100-107 | a native answer is returned as is; otherwise an `int` index yields the element at `max(index, 0)` when another element follows it, and else the pass's exception if it raises, the element if it is the last one, or `IndexError` if there is none; any other key raises `IndexError` |
| `Iters.IndexExamples` | iters.py:104-107 | a negative index gives the first element; the last element of a raising pass gives the exception, an earlier one the element; an index past the end and a non-integer key raise `IndexError` |
| `Iters.SliceGuard` | iters.py:97-98 | the guard passes exactly when all three components are present and `start >= 0`, `step >= 1`, `stop >= 0`; a complete key fails only with `ValueError`; a missing `start` raises `TypeError`, a negative one `ValueError` |
| `Iters.GetSlice` | iters.py:93-99 | a native slice is wrapped as is; otherwise the fallback fails exactly when `start < 0`, `step < 1` or `stop < 0`, or a component is missing, and the first test to fail, left to right, decides: a missing component raises `TypeError`, one out of range `ValueError` |
| `Iters.SliceGuardExamples` | iters.py:97-98 | `[-1:]` and `[0:3:0]` raise `ValueError`, `[:3]` and `[0::1]` raise `TypeError` |
| `Iters.SliceFallback` | iters.py:96-99 | the fallback slice yields the elements at `start`, `start + step`, ..., at most `stop` of them, stopping early only at the source's end |
| `Iters.DictSliceExample` | iters.py:42-43 | slicing `[1:2:3]` over a dict of 10 keys yields `[1, 4]` |
| `Iters.RangeSliceExample` | iters.py:96-99 | the fallback slice `[2:8:2]` over 0..9 yields `[2, 4, 6, 8]`: `stop` counts elements |
| `Iters.Rev` | iters.py:525-528 | `rev()` wraps the native reversed slice when there is one, and otherwise materialises the pass and yields it reversed, or the exception that ends it |
| `Iters.RevTwice` | iters.py:525-528 | reversing twice gives back the wrapper, and the fallback agrees with a native reversal |
| `Iters.RepeatExample` | iters.py:327-328 | `range(1, 4)` repeated 3 times collects to `[1, 2, 3, 1, 2, 3, 1, 2, 3]` |
| `Iters.ChainExample` | iters.py:301-302 | `range(1, 6)` chained with `range(6, 0, -1)` collects to `[1, 2, 3, 4, 5, 6, 5, 4, 3, 2, 1]` |
| `Iters.OperatorExamples` | iters.py:60-64 | with `i1 = IterWrapper([1, 2, 3])`, `i1 + [4, 5, 6]` collects to `[1, 2, 3, 4, 5, 6]` and `i1 * 3` to `[1, 2, 3, 1, 2, 3, 1, 2, 3]` |
| `Iters.MapTestExample` | test_iterwrapper.py:8 | `range(0, 9).map(x + 1).take(3).collect(list)` is `[1, 2, 3]` |
| `Misc.RangeInf` | iterwrapper/misc.py:5-8 | the first `k` values of `range_inf(start, step)` are `start + j * step` for `j < k` |
| `Misc.RangeInfSteps` | iterwrapper/misc.py:5-8 | consecutive values differ by `step` |
| `Misc.TailInf` | iterwrapper/misc.py:11-14 | the first `k` values of `tail_inf(i, d)` are `i`'s elements and then `d`; for `k >= len(i)` they are `i` followed by `k - len(i)` copies of `d` |
| `Misc.AllEq` | iterwrapper/misc.py:17-21 | `all_eq(i, n)` is false exactly when some element differs from `n`, even if the pass would raise later; true exactly when every element equals `n` (so for an empty `i`) and the pass is exhausted; and otherwise the exception that ends the pass |
| `Misc.AllEqStopsEarly` | iterwrapper/misc.py:18-20 | a mismatch before an exception gives `False`: the loop returns without pulling further |

## Left out

- Construction's `TypeError` for a non-iterable (iters.py:81) is a dynamic type test; every wrapper in the model wraps a sequence.
- `__iter__` and `__len__` delegate to the source's own protocol (a generator has no length); the model's pass stands for iteration, and length is not modelled.
- Native indexing and slicing of a source, including the negative-step slice `rev` tries first, are foreign behaviour: their answer is the `native` parameter.
- A slice whose native attempt returns something that is not iterable makes the wrapper's constructor raise inside the `try`, which the fallback then handles; the model takes the native answer as a sequence.
- Slice components and counts are integers or missing; floats and `bool` arguments are not modelled.
- One-shot sources: two wrappers branched from the same generator share its state, and `repeat` over a generator yields it only once. The model treats every source as re-iterable.
- Laziness in time (when the user's callables run) is not modelled, only what each pass yields and how it ends.
- The callables given to `map`, `filter`, `fold` and `count` are total functions here; an exception raised inside one is not modelled.
- `flat`'s nested iterables are finite sequences that do not raise; which elements count as iterable (`Item.Nested`) is fixed by the caller of the model.
- `mutate`, `collect` with constructors other than `list`, `apply`, `pipe` and `unwrap` run foreign constructors, mutators or consumers, or hand back the Python object itself; `collect(list)` is `Collect`.
- `fold`'s default `d=None` is not modelled: the initial value is always given.
- TailInf: `tail_inf`'s default `d=None` is not a default here; it is recovered by choosing `T := Option<U>` and passing `None`.
- `range_inf` and `tail_inf` never end; only their length-`k` prefixes are modelled, and `range_inf` with float arguments is not.
- Three docstring examples contradict the code, and the model follows the code: iters.py:44-45 shows `range(0,10)[5]` as 4; iters.py:170 lacks one 6 and one 7 (the pair for 6) and ends with an extra `10, 11`; iters.py:353-354 shows `fold(lambda c, x: c+x**2)` as 385, but with the default `d=None` the first call computes `None + 1` and raises `TypeError`.
- Chunking and zipping do not exist in iters.py; `foreach` (called by test_iterwrapper.py:14) does not exist either.
- setup.py and test.py are packaging and a demonstration script.
