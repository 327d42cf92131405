/**
 * Publishing one message: a pass over the registry that sends the message into
 * every registered channel with the drop-oldest policy.
 */
module Broadcast {
  import opened BoundedQueue
  import opened Registry

  /** Every channel respects the capacity. */
  predicate AllBounded(qs: map<Handle, Queue>)
  {
    forall h :: h in qs ==> |qs[h]| <= Capacity
  }

  /** Every registered handle owns a channel. */
  predicate AllKnown(qs: map<Handle, Queue>, rs: seq<Handle>)
  {
    forall h :: h in rs ==> h in qs
  }

  /** The channels after sending `m` to each entry of `rs`, first to last. */
  function PublishTo(qs: map<Handle, Queue>, rs: seq<Handle>, m: string): (r: map<Handle, Queue>)
    requires AllKnown(qs, rs)
    ensures r.Keys == qs.Keys
    decreases |rs|
  {
    if rs == [] then qs
    else
      var p := PublishTo(qs, rs[..|rs| - 1], m);
      var h := rs[|rs| - 1];
      p[h := Push(p[h], m)]
  }

  /** Publishing to one more handle pushes into that handle's channel only. */
  lemma PublishToSnoc(qs: map<Handle, Queue>, rs: seq<Handle>, m: string, h: Handle)
    requires AllKnown(qs, rs) && rs != [] && h in qs
    ensures AllKnown(qs, rs[..|rs| - 1])
    ensures var p := PublishTo(qs, rs[..|rs| - 1], m);
      PublishTo(qs, rs, m)[h] == if rs[|rs| - 1] == h then Push(p[h], m) else p[h]
  {
  }

  /** Every channel receives the message once per occurrence of its handle in `rs`. */
  lemma {:induction false} PublishToCounts(qs: map<Handle, Queue>, rs: seq<Handle>, m: string, h: Handle)
    requires AllKnown(qs, rs) && h in qs
    ensures PublishTo(qs, rs, m)[h] == PushTimes(qs[h], m, multiset(rs)[h])
    decreases |rs|
  {
    if rs != [] {
      var init := rs[..|rs| - 1];
      PublishToSnoc(qs, rs, m, h);
      PublishToCounts(qs, init, m, h);
      CountSnoc(rs, h);
    }
  }

  /**
   * With a registry free of duplicates, publishing pushes the message into each
   * registered channel exactly once and leaves every other channel unchanged.
   */
  lemma PublishToDistinct(qs: map<Handle, Queue>, rs: seq<Handle>, m: string)
    requires AllKnown(qs, rs) && Distinct(rs)
    ensures var r := PublishTo(qs, rs, m);
      r.Keys == qs.Keys &&
      forall h :: h in qs ==> r[h] == if h in rs then Push(qs[h], m) else qs[h]
  {
    forall h | h in qs
      ensures PublishTo(qs, rs, m)[h] == if h in rs then Push(qs[h], m) else qs[h]
    {
      PublishToCounts(qs, rs, m, h);
      DistinctCount(rs, h);
    }
  }
}
