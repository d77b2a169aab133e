/** The pieces of Python list and numpy array behaviour the modelled code
    relies on: subscripts with negative wrap-around, `x[:-1]`,
    `np.where(a == x)[0][0]` and `np.searchsorted(a, v)`. */
module PySeq {
  import opened Outcomes
  import opened PyStr

  /** The position a subscript `i` denotes in a sequence of length `n`:
      negative subscripts count from the end. */
  function Wrap(n: nat, i: int): (p: Option<nat>)
    ensures p.Some? <==> -(n as int) <= i < n
    ensures p.Some? ==> p.value < n && (p.value == i || p.value == i + n)
  {
    if 0 <= i < n then Some(i)
    else if -(n as int) <= i < 0 then Some(i + n)
    else None
  }

  /** `xs[i]` on a Python list. */
  function ListAt<T>(xs: seq<T>, i: int): (r: Result<T>)
    ensures r.Ok? <==> Wrap(|xs|, i).Some?
    ensures r.Ok? ==> r.value == xs[Wrap(|xs|, i).value]
    ensures r.Err? ==> r.error == IndexError("list index out of range")
  {
    match Wrap(|xs|, i)
    case Some(p) => Ok(xs[p])
    case None => Err(IndexError("list index out of range"))
  }

  /** numpy's message for an out-of-range subscript on axis 0. */
  function OutOfBounds(i: int, n: nat): Error {
    IndexError("index " + IntToString(i) + " is out of bounds for axis 0 with size " + IntToString(n))
  }

  /** `a[i]` on a one-dimensional numpy array (or the first axis of one). */
  function ArrayAt<T>(a: seq<T>, i: int): (r: Result<T>)
    ensures r.Ok? <==> Wrap(|a|, i).Some?
    ensures r.Ok? ==> r.value == a[Wrap(|a|, i).value]
    ensures r.Err? ==> r.error == OutOfBounds(i, |a|)
  {
    match Wrap(|a|, i)
    case Some(p) => Ok(a[p])
    case None => Err(OutOfBounds(i, |a|))
  }

  /** `xs[:-1]`: everything but the last element, and nothing for an empty list. */
  function DropLast<T>(xs: seq<T>): (r: seq<T>)
    ensures |xs| > 0 ==> |r| == |xs| - 1
    ensures |xs| == 0 ==> r == []
    ensures forall k :: 0 <= k < |r| ==> r[k] == xs[k]
  {
    if |xs| == 0 then [] else xs[..|xs| - 1]
  }

  /** No two neighbouring entries are equal. */
  predicate NoAdjacent(s: seq<int>) {
    forall k :: 0 <= k < |s| - 1 ==> s[k] != s[k + 1]
  }

  /** No value occurs twice. */
  predicate Distinct<T(==)>(s: seq<T>) {
    forall i, j :: 0 <= i < j < |s| ==> s[i] != s[j]
  }

  /** Joining two sequences without neighbouring duplicates makes one,
      as long as the seam differs. */
  lemma NoAdjacentAppend(a: seq<int>, b: seq<int>)
    requires NoAdjacent(a) && NoAdjacent(b)
    requires |a| > 0 && |b| > 0 ==> a[|a| - 1] != b[0]
    ensures NoAdjacent(a + b)
  {
    var c := a + b;
    forall k | 0 <= k < |c| - 1
      ensures c[k] != c[k + 1]
    {
      if k + 1 < |a| {
        assert c[k] == a[k] && c[k + 1] == a[k + 1];
      } else if k >= |a| {
        assert c[k] == b[k - |a|] && c[k + 1] == b[k + 1 - |a|];
      } else {
        assert c[k] == a[|a| - 1] && c[k + 1] == b[0];
      }
    }
  }

  /** Where a slice bound `i` lands in a sequence of length `n`: negative
      bounds count from the end, and bounds outside are clamped. */
  function Clamp(n: nat, i: int): (p: nat)
    ensures p <= n
    ensures 0 <= i <= n ==> p == i
  {
    if i < 0 then (if i + n < 0 then 0 else i + n)
    else if i > n then n
    else i
  }

  /** `xs[start:stop]`, with `None` for an omitted stop. */
  function Slice<T>(xs: seq<T>, start: int, stop: Option<int>): (r: seq<T>)
    ensures |r| <= |xs|
    ensures 0 <= start <= |xs| && stop.None? ==> r == xs[start..]
    ensures stop.Some? && 0 <= start <= stop.value <= |xs| ==> r == xs[start..stop.value]
  {
    var lo := Clamp(|xs|, start);
    var hi := match stop case None => |xs| case Some(e) => Clamp(|xs|, e);
    if lo < hi then xs[lo..hi] else []
  }

  /** `xs[::-1]`, or `xs.reverse()` in place. */
  function Reverse<T>(xs: seq<T>): (r: seq<T>)
    ensures |r| == |xs| && forall k :: 0 <= k < |xs| ==> r[k] == xs[|xs| - 1 - k]
    decreases |xs|
  {
    if |xs| == 0 then [] else Reverse(xs[1..]) + [xs[0]]
  }

  /** The first position holding `x`, if any. */
  function FirstIndexOf<T(==)>(a: seq<T>, x: T): (r: Option<nat>)
    ensures r.Some? ==> r.value < |a| && a[r.value] == x
    ensures r.Some? ==> forall k :: 0 <= k < r.value ==> a[k] != x
    ensures r.None? <==> x !in a
    decreases |a|
  {
    if |a| == 0 then None
    else if a[0] == x then Some(0)
    else match FirstIndexOf(a[1..], x)
      case None => None
      case Some(p) => Some(p + 1)
  }

  /** `np.where(a == x)[0][0]`: the first row holding `x`, or numpy's
      error for subscripting the empty match list. */
  function WhereFirst<T(==)>(a: seq<T>, x: T): (r: Result<nat>)
    ensures r.Ok? <==> x in a
    ensures r.Ok? ==> r.value < |a| && a[r.value] == x && forall k :: 0 <= k < r.value ==> a[k] != x
    ensures r.Err? ==> r.error == OutOfBounds(0, 0)
  {
    match FirstIndexOf(a, x)
    case Some(p) => Ok(p)
    case None => Err(OutOfBounds(0, 0))
  }

  /** `np.searchsorted(a, v)` (side "left"): the number of entries below
      `v`, which is the leftmost insertion point when `a` is sorted. */
  function CountBelow(a: seq<int>, v: int): (n: nat)
    ensures n <= |a|
    decreases |a|
  {
    if |a| == 0 then 0 else (if a[0] < v then 1 else 0) + CountBelow(a[1..], v)
  }

  predicate Sorted(a: seq<int>) {
    forall i, j :: 0 <= i < j < |a| ==> a[i] <= a[j]
  }

  /** On a sorted array the count of entries below `v` is the leftmost
      position at which `v` can be inserted keeping the order. */
  lemma {:induction false} CountBelowInsertion(a: seq<int>, v: int)
    requires Sorted(a)
    ensures var n := CountBelow(a, v);
      (forall k :: 0 <= k < n ==> a[k] < v) && (forall k :: n <= k < |a| ==> v <= a[k])
    decreases |a|
  {
    if |a| > 0 {
      CountBelowInsertion(a[1..], v);
      var n := CountBelow(a, v);
      if a[0] < v {
        forall k | 1 <= k < n
          ensures a[k] < v
        {
          assert a[k] == a[1..][k - 1];
        }
        forall k | n <= k < |a|
          ensures v <= a[k]
        {
          assert a[k] == a[1..][k - 1];
        }
      } else {
        assert CountBelow(a[1..], v) == 0 by {
          CountBelowNone(a[1..], v);
        }
        forall k | 0 <= k < |a|
          ensures v <= a[k]
        {
        }
      }
    }
  }

  lemma {:induction false} CountBelowNone(a: seq<int>, v: int)
    requires forall k :: 0 <= k < |a| ==> v <= a[k]
    ensures CountBelow(a, v) == 0
    decreases |a|
  {
    if |a| > 0 {
      CountBelowNone(a[1..], v);
    }
  }

  /** On a sorted array holding `v`, the count below `v` is the position
      of its first occurrence. */
  lemma CountBelowFinds(a: seq<int>, v: int)
    requires Sorted(a) && v in a
    ensures CountBelow(a, v) == FirstIndexOf(a, v).value
  {
    CountBelowInsertion(a, v);
  }
}
