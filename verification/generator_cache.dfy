/** generator_cache.py: a Fibonacci generator and a list-backed cache that lets an iterator
    be indexed.

    An iterator is modelled by what successive `next` calls give: `source(k)` is the result
    of the k-th call, Some(value) or None for StopIteration. The cache is append-only and
    every value it holds is the one the iterator produced at that position. */
module GeneratorCache {
  import opened Wrappers
  import opened PyExceptions

  /** F(0) = 0, F(1) = 1, F(k + 2) = F(k + 1) + F(k). */
  function Fib(k: nat): nat {
    if k < 2 then k else Fib(k - 1) + Fib(k - 2)
  }

  /** The first `count` values `fib()` yields: the generator's loop keeps `n, m` and yields m
      before stepping to `n + m, n`. */
  method FibPrefix(count: nat) returns (values: seq<nat>)
    ensures |values| == count && forall k :: 0 <= k < count ==> values[k] == Fib(k)
  {
    var n: nat, m: nat := 1, 0;
    var i: nat := 0;
    values := [];
    while i < count
      invariant i <= count && |values| == i
      invariant m == Fib(i) && n == Fib(i + 1)
      invariant forall k :: 0 <= k < i ==> values[k] == Fib(k)
    {
      values := values + [m];
      n, m := n + m, n;
      i := i + 1;
    }
  }

  /** A Python index object: an int, or some other object that compares with 0 (a float,
      say), recorded by whether it is negative. */
  datatype Index = Int(value: int) | NonInt(negative: bool)

  class IteratorCache<T> {
    /** The iterator, as the results of its successive `next` calls. */
    const source: nat -> Option<T>
    /** `_cache`: the values produced so far. */
    var cache: seq<T>

    /** The cache holds exactly the iterator's first |cache| results, and the iterator has
        been advanced exactly that far. */
    ghost predicate Valid()
      reads this
    {
      forall k :: 0 <= k < |cache| ==> source(k) == Some(cache[k])
    }

    /** `__init__`: wrap an iterator with an empty cache. */
    constructor (produce: nat -> Option<T>)
      ensures source == produce && cache == [] && Valid()
    {
      source := produce;
      cache := [];
    }

    /** `_ensure_cache`: pull values from the iterator until the cache reaches index or the
        iterator stops. Nothing already cached changes. */
    method EnsureCache(index: int)
      requires Valid()
      modifies this
      ensures Valid()
      ensures |old(cache)| <= |cache| && cache[..|old(cache)|] == old(cache)
      ensures index < |cache| || source(|cache|).None?
      ensures |cache| <= if index < |old(cache)| then |old(cache)| else index + 1
    {
      while |cache| <= index
        invariant Valid()
        invariant |old(cache)| <= |cache| && cache[..|old(cache)|] == old(cache)
        invariant |cache| <= if index < |old(cache)| then |old(cache)| else index + 1
        decreases index - |cache|
      {
        var produced := source(|cache|);
        if produced.None? {
          return;
        }
        cache := cache + [produced.value];
      }
    }

    /** `__getitem__`: a negative index is refused first, then a non-integer one; otherwise
        the cache is filled up to the index and the cached value returned, and an iterator
        that stopped too early leaves the list lookup out of range. */
    method GetItem(index: Index) returns (r: Result<T, Exception>)
      requires Valid()
      modifies this
      ensures Valid()
      ensures |old(cache)| <= |cache| && cache[..|old(cache)|] == old(cache)
      ensures r.Err? ==> r.error.IndexError?
      ensures (index.Int? && index.value < 0) || (index.NonInt? && index.negative) ==>
                r == Err(IndexError("Index out of bounds"))
      ensures index.NonInt? && !index.negative ==> r == Err(IndexError("Non-integral index"))
      ensures index.Int? && 0 <= index.value ==>
                (r.Ok? <==> forall k :: 0 <= k <= index.value ==> source(k).Some?) &&
                (r.Ok? ==> source(index.value) == Some(r.value))
      ensures index.Int? && index.value < |old(cache)| ==> cache == old(cache)
      ensures index.Int? && 0 <= index.value ==>
                |cache| <= if index.value < |old(cache)| then |old(cache)| else index.value + 1
      ensures !(index.Int? && 0 <= index.value) ==> cache == old(cache)
    {
      if (index.Int? && index.value < 0) || (index.NonInt? && index.negative) {
        return Err(IndexError("Index out of bounds"));
      }
      if index.NonInt? {
        return Err(IndexError("Non-integral index"));
      }
      var i := index.value;
      EnsureCache(i);
      if i < |cache| {
        r := Ok(cache[i]);
      } else {
        assert source(|cache|).None? && |cache| <= i;
        r := Err(IndexError("list index out of range"));
      }
    }
  }

  /** Indexing a cache over `fib()` gives the Fibonacci numbers. The source the requires asks
      for is the one `fib()` is: its k-th `next` gives Fib(k), as `FibPrefix` proves of the
      generator's loop, and it never stops. */
  method FibItem(c: IteratorCache<nat>, i: nat) returns (v: Result<nat, Exception>)
    requires c.Valid() && forall k :: c.source(k) == Some(Fib(k))
    modifies c
    ensures c.Valid()
    ensures v == Ok(Fib(i))
  {
    v := c.GetItem(Int(i));
  }
}
