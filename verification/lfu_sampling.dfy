/**
 Sampling of a store's entries by fast-forwarding an iterator over its values.

 The values are modelled in iteration order. For each random offset the iterator skips
 that many values and then takes the next one; once it runs past the end every further
 `next()` is ignored, so every later slot stays empty (`None`, the Java `null`).
 */
module LfuSampling {
  import opened Options

  /** A cache entry: its key, its hit count, and whether it had expired when sampled. */
  datatype Element = Element(key: int, hitCount: nat, expired: bool)

  /** No two entries share a key, as in the map the values come from. */
  predicate DistinctKeys(values: seq<Element>) {
    forall a, b :: 0 <= a < b < |values| ==> values[a].key != values[b].key
  }

  function Sum(s: seq<nat>): nat
    decreases |s|
  {
    if s == [] then 0 else Sum(s[..|s| - 1]) + s[|s| - 1]
  }

  function Min(a: nat, b: nat): nat {
    if a <= b then a else b
  }

  /** Iteration position that slot `i` reads: all skips so far plus one per earlier take. */
  function SamplePosition(offsets: seq<nat>, i: nat): nat
    requires i < |offsets|
  {
    Sum(offsets[..i + 1]) + i
  }

  /** The sample in closed form: slot `i` holds the value at `SamplePosition(offsets, i)`
      when that position is inside the values, and is empty otherwise. */
  function Sample(values: seq<Element>, offsets: seq<nat>): (r: seq<Option<Element>>)
    ensures |r| == |offsets|
    ensures forall i :: 0 <= i < |r| && r[i].Some? ==> r[i].value in values
  {
    seq(|offsets|, i requires 0 <= i < |offsets| =>
      if SamplePosition(offsets, i) < |values| then Some(values[SamplePosition(offsets, i)]) else None)
  }

  /**
   `sampleElements`: walks one iterator over the values, skipping `offsets[i]` values
   before taking slot `i`; a `next()` on an exhausted iterator is ignored.
   */
  method SampleElements(values: seq<Element>, offsets: seq<nat>) returns (elements: seq<Option<Element>>)
    ensures elements == Sample(values, offsets)
  {
    var n := |values|;
    elements := [];
    // index of the value the next `next()` returns; n once the iterator is exhausted
    var cursor := 0;
    var i := 0;
    while i < |offsets|
      invariant 0 <= i <= |offsets|
      invariant cursor == Min(n, Sum(offsets[..i]) + i)
      invariant elements == Sample(values, offsets)[..i]
    {
      var j := 0;
      while j < offsets[i]
        invariant 0 <= j <= offsets[i]
        invariant cursor == Min(n, Sum(offsets[..i]) + i + j)
      {
        if cursor < n {
          cursor := cursor + 1;
        }
        j := j + 1;
      }
      assert offsets[..i + 1][..i] == offsets[..i];
      if cursor < n {
        elements := elements + [Some(values[cursor])];
        cursor := cursor + 1;
      } else {
        elements := elements + [None];
      }
      assert Sample(values, offsets)[..i + 1] == Sample(values, offsets)[..i] + [Sample(values, offsets)[i]];
      i := i + 1;
    }
    assert Sample(values, offsets)[..i] == Sample(values, offsets);
  }

  /** Running sums of offsets never decrease. */
  lemma {:induction false} SumMonotone(s: seq<nat>, a: nat, b: nat)
    requires a <= b <= |s|
    ensures Sum(s[..a]) <= Sum(s[..b])
    decreases b - a
  {
    if a < b {
      SumMonotone(s, a, b - 1);
      assert s[..b][..b - 1] == s[..b - 1];
    }
  }

  /** Later slots read strictly later positions. */
  lemma SamplePositionIncreasing(offsets: seq<nat>, i: nat, k: nat)
    requires i < k < |offsets|
    ensures SamplePosition(offsets, i) < SamplePosition(offsets, k)
  {
    SumMonotone(offsets, i + 1, k + 1);
  }

  /** Once the iterator is exhausted, every later slot is empty. */
  lemma SampleStaysExhausted(values: seq<Element>, offsets: seq<nat>, i: nat, k: nat)
    requires i < k < |offsets| && Sample(values, offsets)[i].None?
    ensures Sample(values, offsets)[k].None?
  {
    SamplePositionIncreasing(offsets, i, k);
  }

  /** No entry is sampled twice: two filled slots hold values with different keys. */
  lemma SampleNoRepeats(values: seq<Element>, offsets: seq<nat>, i: nat, k: nat)
    requires DistinctKeys(values)
    requires i < k < |offsets| && Sample(values, offsets)[i].Some? && Sample(values, offsets)[k].Some?
    ensures Sample(values, offsets)[i].value.key != Sample(values, offsets)[k].value.key
  {
    SamplePositionIncreasing(offsets, i, k);
  }
}
