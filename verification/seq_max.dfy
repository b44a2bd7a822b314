/** Python's `max(scores)` and `scores.index(max(scores))` over integer lists. */
module SeqMax {

  /** The largest element of a non-empty list (`max` fails on an empty one). */
  function Max(xs: seq<int>): (m: int)
    requires |xs| > 0
    ensures m in xs
    ensures forall i | 0 <= i < |xs| :: xs[i] <= m
  {
    if |xs| == 1 then xs[0]
    else
      var rest := Max(xs[1..]);
      if xs[0] >= rest then xs[0] else rest
  }

  /** `list.index(x)`: the position of the first occurrence of `x`. */
  function IndexOf(xs: seq<int>, x: int): (k: nat)
    requires x in xs
    ensures k < |xs| && xs[k] == x
    ensures forall j | 0 <= j < k :: xs[j] != x
  {
    if xs[0] == x then 0 else 1 + IndexOf(xs[1..], x)
  }

  /** The position of the first maximal element. */
  function FirstMaxIndex(xs: seq<int>): (k: nat)
    requires |xs| > 0
    ensures k < |xs| && xs[k] == Max(xs)
    ensures forall j | 0 <= j < k :: xs[j] < xs[k]
  {
    IndexOf(xs, Max(xs))
  }

  /** A value that bounds every element and occurs in the list is its maximum. */
  lemma MaxUnique(xs: seq<int>, m: int)
    requires m in xs
    requires forall i | 0 <= i < |xs| :: xs[i] <= m
    ensures Max(xs) == m
  {
  }

  /** A position holding the maximum with only smaller elements before it is
      the first maximal position. */
  lemma FirstMaxUnique(xs: seq<int>, k: nat)
    requires k < |xs| && xs[k] == Max(xs)
    requires forall j | 0 <= j < k :: xs[j] < xs[k]
    ensures FirstMaxIndex(xs) == k
  {
  }

  /** Appending one element: the maximum grows only if the new element is
      strictly larger, and the first maximal position moves only then. */
  lemma {:induction false} MaxSnoc(xs: seq<int>, x: int)
    requires |xs| > 0
    ensures Max(xs + [x]) == (if x > Max(xs) then x else Max(xs))
    ensures FirstMaxIndex(xs + [x]) == (if x > Max(xs) then |xs| else FirstMaxIndex(xs))
  {
    var ys := xs + [x];
    var m := if x > Max(xs) then x else Max(xs);
    assert forall i | 0 <= i < |ys| :: ys[i] <= m by {
      forall i | 0 <= i < |ys| ensures ys[i] <= m {
        if i < |xs| { assert ys[i] == xs[i]; }
      }
    }
    assert m in ys by {
      if x > Max(xs) { assert ys[|xs|] == x; }
      else {
        var k := FirstMaxIndex(xs);
        assert ys[k] == xs[k];
      }
    }
    MaxUnique(ys, m);
    if x > Max(xs) {
      FirstMaxUnique(ys, |xs|);
    } else {
      var k0 := FirstMaxIndex(xs);
      assert ys[k0] == xs[k0];
      FirstMaxUnique(ys, k0);
    }
  }

  /** A prefix one longer is the prefix followed by the next element. */
  lemma PrefixSnoc(xs: seq<int>, i: nat)
    requires i < |xs|
    ensures xs[..i + 1] == xs[..i] + [xs[i]]
  {
  }

  /** A left-to-right scan of the first `n` elements that starts with the
      value `floor` and no position, and takes an element only when it is
      strictly larger than the best so far: the position and value it ends
      with. */
  function Scan(xs: seq<int>, n: nat, floor: int): (r: (int, int))
    requires n <= |xs|
    ensures -1 <= r.0 < n
    ensures r.0 == -1 ==> r.1 == floor
    ensures r.0 >= 0 ==> r.1 == xs[r.0] > floor
  {
    if n == 0 then (-1, floor)
    else
      var prev := Scan(xs, n - 1, floor);
      if xs[n - 1] > prev.1 then (n - 1, xs[n - 1]) else prev
  }

  /** One more step of the scan. */
  lemma ScanStep(xs: seq<int>, n: nat, floor: int, r: (int, int))
    requires n < |xs| && r == Scan(xs, n, floor)
    ensures Scan(xs, n + 1, floor) == if xs[n] > r.1 then (n, xs[n]) else r
  {
  }

  /** Started below every element, the scan ends on the first maximal
      position and the maximum. */
  lemma {:induction false} ScanFindsFirstMax(xs: seq<int>, n: nat, floor: int)
    requires 0 < n <= |xs|
    requires forall i | 0 <= i < |xs| :: floor < xs[i]
    ensures Scan(xs, n, floor) == (FirstMaxIndex(xs[..n]), Max(xs[..n]))
  {
    if n == 1 {
      assert xs[..1] == [xs[0]];
    } else {
      ScanFindsFirstMax(xs, n - 1, floor);
      assert xs[..n] == xs[..n - 1] + [xs[n - 1]];
      MaxSnoc(xs[..n - 1], xs[n - 1]);
    }
  }
}
