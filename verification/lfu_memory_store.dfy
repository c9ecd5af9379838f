/**
 Victim selection of the sampled-LFU memory store.

 The store's map is modelled by its values in iteration order, keys distinct. The random
 offsets and the selection policy are parameters: the policy may pick any filled slot of
 the sample other than the element just added, or nothing.
 */
module LfuMemoryStore {
  import opened Options
  import opened LfuSampling

  /** Picks a relatively unused element from a sample, given the element just added. */
  type Policy = (seq<Option<Element>>, Element) -> Option<Element>

  /** What every selection policy promises: nothing, or a sampled element other than the
      one just added. Elements are equal when their keys are. */
  ghost predicate PolicyContract(policy: Policy) {
    forall sample: seq<Option<Element>>, justAdded: Element ::
      policy(sample, justAdded).Some? ==>
        policy(sample, justAdded) in sample && policy(sample, justAdded).value.key != justAdded.key
  }

  /** How a put that found the store full ended. */
  datatype Removal =
    | NoRemoval                 // not full, or no candidate: the store grows by one
    | Expired(element: Element) // the candidate had expired: removed and signalled as an expiry
    | Evicted(element: Element) // the candidate was evicted and removed

  datatype PutResult = PutResult(values: seq<Element>, removal: Removal)

  /** A candidate for removal drawn from a sample of the store, never the element just added. */
  function FindRelativelyUnused(values: seq<Element>, offsets: seq<nat>, justAdded: Element, policy: Policy): (r: Option<Element>)
    requires PolicyContract(policy)
    ensures r.Some? ==> r in Sample(values, offsets) && r.value in values && r.value.key != justAdded.key
  {
    policy(Sample(values, offsets), justAdded)
  }

  /** The map's `remove(key)`: drops the entry with that key, keeping the others in order. */
  function RemoveKey(values: seq<Element>, key: int): (r: seq<Element>)
    ensures forall e :: e in r <==> e in values && e.key != key
    ensures DistinctKeys(values) ==> DistinctKeys(r)
  {
    if values == [] then []
    else if values[0].key == key then RemoveKey(values[1..], key)
    else [values[0]] + RemoveKey(values[1..], key)
  }

  /** With distinct keys, removing a present key takes out exactly that one entry. */
  lemma {:induction false} RemoveKeyRemovesOne(values: seq<Element>, k: nat)
    requires DistinctKeys(values) && k < |values|
    ensures RemoveKey(values, values[k].key) == values[..k] + values[k + 1..]
    decreases k
  {
    var key := values[k].key;
    if k == 0 {
      forall i | 0 <= i < |values[1..]| ensures values[1..][i].key != key {
        assert values[1..][i] == values[i + 1];
      }
      RemoveKeyAbsent(values[1..], key);
    } else {
      var tail := values[1..];
      assert DistinctKeys(tail) by {
        forall a, b | 0 <= a < b < |tail| ensures tail[a].key != tail[b].key {
          assert tail[a] == values[a + 1] && tail[b] == values[b + 1];
        }
      }
      assert tail[k - 1] == values[k];
      RemoveKeyRemovesOne(tail, k - 1);
      assert values[0].key != key;
      calc {
        RemoveKey(values, key);
        [values[0]] + RemoveKey(tail, key);
        [values[0]] + (tail[..k - 1] + tail[k..]);
        { assert [values[0]] + tail[..k - 1] == values[..k] && tail[k..] == values[k + 1..]; }
        values[..k] + values[k + 1..];
      }
    }
  }

  lemma {:induction false} RemoveKeyAbsent(values: seq<Element>, key: int)
    requires forall i :: 0 <= i < |values| ==> values[i].key != key
    ensures RemoveKey(values, key) == values
    decreases |values|
  {
    if values != [] {
      RemoveKeyAbsent(values[1..], key);
    }
  }

  /**
   `removeLfuElement`: with no candidate nothing is removed; an expired candidate is
   removed and signalled as an expiry; any other candidate is evicted and removed.
   */
  function RemoveLfuElement(values: seq<Element>, justAdded: Element, offsets: seq<nat>, policy: Policy): (r: PutResult)
    requires DistinctKeys(values) && PolicyContract(policy)
    ensures DistinctKeys(r.values)
    ensures r.removal.NoRemoval? <==> FindRelativelyUnused(values, offsets, justAdded, policy).None?
    ensures r.removal.NoRemoval? ==> r.values == values
    ensures !r.removal.NoRemoval? ==>
      var victim := r.removal.element;
      && FindRelativelyUnused(values, offsets, justAdded, policy) == Some(victim)
      && victim.key != justAdded.key
      && (r.removal.Expired? <==> victim.expired)
      && exists k :: 0 <= k < |values| && values[k] == victim && r.values == values[..k] + values[k + 1..]
  {
    var candidate := FindRelativelyUnused(values, offsets, justAdded, policy);
    if candidate.None? then PutResult(values, NoRemoval)
    else
      var element := candidate.value;
      var k :| 0 <= k < |values| && values[k] == element;
      RemoveKeyRemovesOne(values, k);
      if element.expired then PutResult(RemoveKey(values, element.key), Expired(element))
      else PutResult(RemoveKey(values, element.key), Evicted(element))
  }

  /**
   `doPut`, called after `justAdded` went into the map: a full store gives up the
   policy's candidate, if it finds one, and never the one just added; a store that is
   not full gives up nothing.
   */
  function DoPut(values: seq<Element>, full: bool, justAdded: Element, offsets: seq<nat>, policy: Policy): (r: PutResult)
    requires DistinctKeys(values) && PolicyContract(policy)
    ensures DistinctKeys(r.values)
    ensures !full ==> r == PutResult(values, NoRemoval)
    // a full store gives up an entry exactly when the policy finds a candidate
    ensures full ==> (r.removal.NoRemoval? <==> FindRelativelyUnused(values, offsets, justAdded, policy).None?)
    ensures full && !r.removal.NoRemoval? ==>
      && FindRelativelyUnused(values, offsets, justAdded, policy) == Some(r.removal.element)
      && (r.removal.Expired? <==> r.removal.element.expired)
    ensures r.removal.NoRemoval? ==> r.values == values
    ensures justAdded in values ==> justAdded in r.values
    ensures !r.removal.NoRemoval? ==>
      && full
      && r.removal.element in values && r.removal.element !in r.values
      && r.removal.element.key != justAdded.key
      && |r.values| == |values| - 1
      && forall e :: e in values && e != r.removal.element ==> e in r.values
  {
    if full then RemoveLfuElement(values, justAdded, offsets, policy)
    else PutResult(values, NoRemoval)
  }
}
