/** bubblesort.c: in-place bubble sort with a `swapped` flag. The C code sorts doubles; NaN
    aside they are totally ordered, and this model sorts integers. */
module BubbleSort {

  predicate Sorted(s: seq<int>) {
    forall i, j :: 0 <= i < j < |s| ==> s[i] <= s[j]
  }

  /** Every adjacent pair in order is the same as sorted. */
  lemma {:induction false} AdjacentSorted(s: seq<int>)
    requires forall k :: 0 <= k < |s| - 1 ==> s[k] <= s[k + 1]
    ensures Sorted(s)
    decreases |s|
  {
    if |s| > 1 {
      AdjacentSorted(s[1..]);
      forall j | 1 <= j < |s| ensures s[0] <= s[j] {
        assert s[1..][0] <= s[1..][j - 1];
      }
    }
  }

  /** s with its elements at i and i + 1 exchanged. */
  function Swap(s: seq<int>, i: nat): (t: seq<int>)
    requires i + 1 < |s|
    ensures |t| == |s| && t[i] == s[i + 1] && t[i + 1] == s[i]
    ensures forall k :: 0 <= k < |s| && k != i && k != i + 1 ==> t[k] == s[k]
  {
    s[i := s[i + 1]][i + 1 := s[i]]
  }

  /** An exchange keeps the same elements. */
  lemma SwapPermutes(s: seq<int>, i: nat)
    requires i + 1 < |s|
    ensures multiset(Swap(s, i)) == multiset(s)
  {
  }

  /** How many elements of t are below x. */
  function Below(x: int, t: seq<int>): (n: nat)
    ensures n <= |t|
  {
    if t == [] then 0 else (if t[0] < x then 1 else 0) + Below(x, t[1..])
  }

  /** The number of inversions: pairs i < j with s[i] > s[j]. */
  function Inversions(s: seq<int>): nat {
    if s == [] then 0 else Below(s[0], s[1..]) + Inversions(s[1..])
  }

  /** Exchanging two neighbours leaves unchanged how many elements lie below x. */
  lemma {:induction false} BelowSwap(x: int, t: seq<int>, i: nat)
    requires i + 1 < |t|
    ensures Below(x, Swap(t, i)) == Below(x, t)
    decreases i
  {
    var u := Swap(t, i);
    if i == 0 {
      assert u[2..] == t[2..];
      assert u[1..][1..] == u[2..] && t[1..][1..] == t[2..];
    } else {
      assert u[1..] == Swap(t[1..], i - 1);
      BelowSwap(x, t[1..], i - 1);
    }
  }

  /** Exchanging an inverted pair of neighbours removes exactly that one inversion. */
  lemma {:induction false} SwapRemovesInversion(s: seq<int>, i: nat)
    requires i + 1 < |s| && s[i] > s[i + 1]
    ensures Inversions(Swap(s, i)) == Inversions(s) - 1
    decreases i
  {
    var u := Swap(s, i);
    if i == 0 {
      var rest := s[2..];
      assert s[1..] == [s[1]] + rest && u[1..] == [s[0]] + rest;
      assert ([s[1]] + rest)[1..] == rest && ([s[0]] + rest)[1..] == rest;
      assert Below(s[0], s[1..]) == 1 + Below(s[0], rest);
      assert Below(s[1], u[1..]) == Below(s[1], rest);
      assert Inversions(s[1..]) == Below(s[1], rest) + Inversions(rest);
      assert Inversions(u[1..]) == Below(s[0], rest) + Inversions(rest);
    } else {
      assert u[1..] == Swap(s[1..], i - 1);
      BelowSwap(s[0], s[1..], i - 1);
      SwapRemovesInversion(s[1..], i - 1);
    }
  }

  /** One pass of the inner `for` loop: compare each adjacent pair and exchange it when out
      of order. Without an exchange every pair was in order; each exchange lowers the
      inversion count. */
  method Pass(a: array<int>) returns (swapped: bool)
    requires a.Length >= 2
    modifies a
    ensures multiset(a[..]) == multiset(old(a[..]))
    ensures !swapped ==> a[..] == old(a[..]) && Sorted(a[..])
    ensures swapped ==> Inversions(a[..]) < Inversions(old(a[..]))
  {
    swapped := false;
    for i := 0 to a.Length - 1
      invariant multiset(a[..]) == multiset(old(a[..]))
      invariant Inversions(a[..]) <= Inversions(old(a[..]))
      invariant !swapped ==> a[..] == old(a[..]) && forall k :: 0 <= k < i ==> a[k] <= a[k + 1]
      invariant swapped ==> Inversions(a[..]) < Inversions(old(a[..]))
    {
      if a[i] > a[i + 1] {
        ghost var before := a[..];
        var tmp := a[i];
        a[i] := a[i + 1];
        a[i + 1] := tmp;
        assert a[..] == Swap(before, i);
        SwapPermutes(before, i);
        SwapRemovesInversion(before, i);
        swapped := true;
      }
    }
    if !swapped {
      AdjacentSorted(a[..]);
    }
  }

  /** `bubblesort`: repeat passes until one makes no exchange. Fewer than two items are left
      alone. The inversion count bounds the number of passes. */
  method BubbleSort(a: array<int>)
    modifies a
    ensures Sorted(a[..])
    ensures multiset(a[..]) == multiset(old(a[..]))
    ensures a.Length < 2 ==> a[..] == old(a[..])
  {
    if a.Length < 2 {
      return;
    }
    var swapped := true;
    while swapped
      invariant multiset(a[..]) == multiset(old(a[..]))
      invariant !swapped ==> Sorted(a[..])
      decreases Inversions(a[..]) + (if swapped then 1 else 0)
    {
      swapped := Pass(a);
    }
  }
}
