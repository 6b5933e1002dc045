/** The large-input helper every bulk lookup goes through: the keys are cut
    into partitions no larger than the store's bind-parameter ceiling, the
    lookup runs once per partition, and the partial results are concatenated.
    An empty input makes no call at all. */
module LargeInputs {

  /** The concatenated results and the number of lookup calls made. */
  datatype Batch<R> = Batch(results: seq<R>, calls: nat)

  function Flatten<T>(ss: seq<seq<T>>): seq<T> {
    if |ss| == 0 then [] else ss[0] + Flatten(ss[1..])
  }

  lemma {:induction false} FlattenMembership<T>(ss: seq<seq<T>>, x: T)
    ensures x in Flatten(ss) <==> exists c :: c in ss && x in c
  {
    if |ss| > 0 {
      FlattenMembership(ss[1..], x);
      assert forall c :: c in ss <==> c == ss[0] || c in ss[1..];
    }
  }

  /** Euclidean division is determined by quotient and remainder. */
  lemma DivisionIsUnique(a: int, size: int, q: int, m: int)
    requires size > 0 && 0 <= m < size && a == q * size + m
    ensures a / size == q
  {
    var q' := a / size;
    var m' := a % size;
    assert (q - q') * size == m' - m;
    if q - q' >= 1 {
      assert false;
    } else if q' - q >= 1 {
      assert false;
    }
  }

  lemma CeilingOfOnePartition(n: nat, size: nat)
    requires 0 < n <= size
    ensures (n + size - 1) / size == 1
  {
    DivisionIsUnique(n + size - 1, size, 1, n - 1);
  }

  lemma CeilingStep(n: nat, size: nat)
    requires size > 0
    ensures (n + size + size - 1) / size == (n + size - 1) / size + 1
  {
    var a := n + size - 1;
    var q := a / size;
    var m := a % size;
    assert a == q * size + m;
    assert a + size == (q + 1) * size + m;
    DivisionIsUnique(a + size, size, q + 1, m);
  }

  /** Successive partitions of `input`: all full except possibly the last,
      none empty, one per started block of `size` keys, and together exactly
      the input. */
  function Partitions<K>(input: seq<K>, size: nat): (r: seq<seq<K>>)
    requires size > 0
    ensures |r| == (|input| + size - 1) / size
    ensures forall i :: 0 <= i < |r| ==> 0 < |r[i]| <= size
    ensures forall i :: 0 <= i < |r| - 1 ==> |r[i]| == size
    ensures Flatten(r) == input
    decreases |input|
  {
    if |input| == 0 then []
    else if |input| <= size then
      CeilingOfOnePartition(|input|, size);
      assert Flatten([input]) == input + [];
      [input]
    else
      var rest := Partitions(input[size..], size);
      CeilingStep(|input| - size, size);
      var r := [input[..size]] + rest;
      assert r[1..] == rest;
      assert input[..size] + input[size..] == input;
      r
  }

  /** Every key lands in some partition, and partitions hold nothing else. */
  lemma PartitionsCover<K>(input: seq<K>, size: nat)
    requires size > 0
    ensures forall k :: k in input <==> exists c :: c in Partitions(input, size) && k in c
  {
    forall k {
      FlattenMembership(Partitions(input, size), k);
    }
  }

  function Lookups<K, R>(lookup: seq<K> -> seq<R>, parts: seq<seq<K>>): (r: seq<seq<R>>)
    ensures |r| == |parts|
    ensures forall i :: 0 <= i < |r| ==> r[i] == lookup(parts[i])
  {
    seq(|parts|, i requires 0 <= i < |parts| => lookup(parts[i]))
  }

  lemma LookupsMembership<K, R>(lookup: seq<K> -> seq<R>, parts: seq<seq<K>>)
    ensures forall x :: x in Flatten(Lookups(lookup, parts)) <==> exists c :: c in parts && x in lookup(c)
  {
    var outs := Lookups(lookup, parts);
    forall x
      ensures x in Flatten(outs) <==> exists c :: c in parts && x in lookup(c)
    {
      FlattenMembership(outs, x);
      if exists c :: c in parts && x in lookup(c) {
        var c :| c in parts && x in lookup(c);
        var i :| 0 <= i < |parts| && parts[i] == c;
        assert outs[i] in outs;
      }
    }
  }

  /** `executeLargeInputs`: one lookup per partition, results concatenated. */
  function ExecuteLargeInputs<K, R(==,!new)>(input: seq<K>, lookup: seq<K> -> seq<R>, size: nat): (r: Batch<R>)
    requires size > 0
    ensures |input| == 0 ==> r == Batch([], 0)
    ensures r.calls == (|input| + size - 1) / size
    ensures forall x :: x in r.results <==> exists c :: c in Partitions(input, size) && x in lookup(c)
  {
    if |input| == 0 then Batch([], 0)
    else
      var parts := Partitions(input, size);
      var outs := Lookups(lookup, parts);
      LookupsMembership(lookup, parts);
      Batch(Flatten(outs), |parts|)
  }

  /** When each partition's lookup returns exactly the rows whose key is in
      the partition, the whole batch returns exactly the rows whose key is
      anywhere in the input. */
  lemma KeyedLookupCoversInput<K, R(!new)>(input: seq<K>, lookup: seq<K> -> seq<R>, size: nat,
                                             rows: seq<R>, key: R -> K)
    requires size > 0
    requires forall c, x :: x in lookup(c) <==> x in rows && key(x) in c
    ensures forall x :: x in ExecuteLargeInputs(input, lookup, size).results <==> x in rows && key(x) in input
  {
    PartitionsCover(input, size);
    var parts := Partitions(input, size);
    forall x
      ensures x in ExecuteLargeInputs(input, lookup, size).results <==> x in rows && key(x) in input
    {
      if x in rows && key(x) in input {
        var c :| c in parts && key(x) in c;
        assert x in lookup(c);
      }
      if x in ExecuteLargeInputs(input, lookup, size).results {
        var c :| c in parts && x in lookup(c);
        assert key(x) in c;
      }
    }
  }
}
