/**
 * The per-subscriber buffer: a channel of capacity 5 into which the publisher
 * sends without blocking, discarding the oldest buffered message when full.
 */
module BoundedQueue {
  /** Buffer size of every subscriber channel. */
  const Capacity: nat := 5

  /** Buffered messages, oldest first. */
  type Queue = seq<string>

  /** The last `n` elements of `s` (all of `s` when it is shorter). */
  function Last<T>(s: seq<T>, n: nat): (r: seq<T>)
    ensures |r| == if |s| <= n then |s| else n
    ensures s == s[..|s| - |r|] + r
  {
    if |s| <= n then s else s[|s| - n..]
  }

  /**
   * Non-blocking send: append when there is room, otherwise receive (discard)
   * the oldest message and then append.
   */
  function Push(q: Queue, m: string): (r: Queue)
    ensures |q| <= Capacity ==> |r| <= Capacity
    ensures |r| == if |q| < Capacity then |q| + 1 else |q|
    ensures r[|r| - 1] == m
  {
    if |q| < Capacity then q + [m] else q[1..] + [m]
  }

  /**
   * A push removes nothing when there is room; on a full queue it removes
   * exactly the oldest message. Either way the survivors keep their order and
   * the new message comes last.
   */
  lemma PushKeepsNewest(q: Queue, m: string)
    requires |q| <= Capacity
    ensures |q| < Capacity ==> Push(q, m) == q + [m]
    ensures |q| == Capacity ==> Push(q, m) == q[1..] + [m] && |Push(q, m)| == |q|
    ensures Push(q, m) == Last(q + [m], Capacity)
  {
    assert |q| == Capacity ==> (q + [m])[|q| + 1 - Capacity..] == q[1..] + [m];
  }

  /** Pushing each of `ms` in turn, first to last, with nothing received in between. */
  function PushAll(q: Queue, ms: seq<string>): (r: Queue)
    ensures |q| <= Capacity ==> |r| <= Capacity
    decreases |ms|
  {
    if ms == [] then q else Push(PushAll(q, ms[..|ms| - 1]), ms[|ms| - 1])
  }

  /** Pushing the same message `n` times. */
  function PushTimes(q: Queue, m: string, n: nat): (r: Queue)
    ensures |q| <= Capacity ==> |r| <= Capacity
  {
    if n == 0 then q else Push(PushTimes(q, m, n - 1), m)
  }

  /** Pushing onto the retained window is the window of the longer history. */
  lemma PushOntoLast(s: seq<string>, m: string)
    ensures Push(Last(s, Capacity), m) == Last(s + [m], Capacity)
  {
    if |s| >= Capacity {
      var w := Last(s, Capacity);
      assert w == s[|s| - Capacity..];
      assert w[1..] + [m] == (s + [m])[|s| + 1 - Capacity..];
    }
  }

  /**
   * Bounded buffering: after pushes with no receives the queue holds exactly the
   * newest `Capacity` messages of its old contents followed by the pushed ones.
   */
  lemma {:induction false} PushAllKeepsNewest(q: Queue, ms: seq<string>)
    requires |q| <= Capacity
    ensures PushAll(q, ms) == Last(q + ms, Capacity)
    decreases |ms|
  {
    if ms == [] {
      assert q + ms == q;
    } else {
      var init, m := ms[..|ms| - 1], ms[|ms| - 1];
      assert ms == init + [m];
      assert q + ms == (q + init) + [m];
      calc {
        PushAll(q, ms);
        Push(PushAll(q, init), m);
        { PushAllKeepsNewest(q, init); }
        Push(Last(q + init, Capacity), m);
        { PushOntoLast(q + init, m); }
        Last(q + ms, Capacity);
      }
    }
  }

  /** From an empty buffer, k pushes leave the last min(Capacity, k) messages in push order. */
  lemma FromEmptyKeepsNewest(ms: seq<string>)
    ensures PushAll([], ms) == Last(ms, Capacity)
    ensures |PushAll([], ms)| == if |ms| <= Capacity then |ms| else Capacity
  {
    PushAllKeepsNewest([], ms);
    assert [] + ms == ms;
  }

  /** Ten messages into a subscriber that reads nothing: the last five remain. */
  lemma TenPushesKeepLastFive()
    ensures PushAll([], ["m1", "m2", "m3", "m4", "m5", "m6", "m7", "m8", "m9", "m10"])
         == ["m6", "m7", "m8", "m9", "m10"]
  {
    var ms := ["m1", "m2", "m3", "m4", "m5", "m6", "m7", "m8", "m9", "m10"];
    FromEmptyKeepsNewest(ms);
    assert Last(ms, Capacity) == ms[5..];
  }

  /** Pushing the same message n times is pushing the n-element run of it. */
  lemma {:induction false} PushTimesIsPushAll(q: Queue, m: string, n: nat)
    requires |q| <= Capacity
    ensures PushTimes(q, m, n) == PushAll(q, seq(n, _ => m))
  {
    if n > 0 {
      PushTimesIsPushAll(q, m, n - 1);
      assert seq(n, _ => m)[..n - 1] == seq(n - 1, _ => m);
    }
  }

  // ---------------------------------------------------------------------
  // One subscriber's channel under an interleaving of sends and receives.

  /** A send by the publisher, or a receive by the subscriber's session. */
  datatype Event = Put(m: string) | Take

  /** Messages sent in a history, in send order. */
  function Puts(evs: seq<Event>): (ms: seq<string>)
    ensures |ms| <= |evs|
  {
    if evs == [] then []
    else Puts(evs[..|evs| - 1]) + (if evs[|evs| - 1].Put? then [evs[|evs| - 1].m] else [])
  }

  /** Channel state after a history. */
  datatype View = View(buffered: Queue, received: seq<string>)

  /**
   * Replays a history from a channel holding `q`. A receive on an empty channel
   * would block; in a history it receives nothing.
   */
  function Run(q: Queue, evs: seq<Event>): (v: View)
    requires |q| <= Capacity
    ensures |v.buffered| <= Capacity
    decreases |evs|
  {
    if evs == [] then View(q, [])
    else
      var v := Run(q, evs[..|evs| - 1]);
      match evs[|evs| - 1]
      case Put(m) => View(Push(v.buffered, m), v.received)
      case Take =>
        if v.buffered == [] then v
        else View(v.buffered[1..], v.received + [v.buffered[0]])
  }

  /** Sends in a history that met a full channel, each discarding its oldest message. */
  function Dropped(q: Queue, evs: seq<Event>): (n: nat)
    requires |q| <= Capacity
    ensures n <= |evs|
    decreases |evs|
  {
    if evs == [] then 0
    else
      var v := Run(q, evs[..|evs| - 1]);
      Dropped(q, evs[..|evs| - 1]) +
        (if evs[|evs| - 1].Put? && |v.buffered| == Capacity then 1 else 0)
  }

  /**
   * Nothing is lost except by drops: every message sent to a channel that
   * starts empty is either received, still buffered, or discarded by a send
   * that met a full channel.
   */
  lemma {:induction false} RunConservesMessages(evs: seq<Event>)
    ensures |Run([], evs).received| + |Run([], evs).buffered| + Dropped([], evs) == |Puts(evs)|
    decreases |evs|
  {
    if evs != [] {
      RunConservesMessages(evs[..|evs| - 1]);
    }
  }

  /** `a` can be obtained from `b` by deleting elements. */
  predicate Subseq<T(==)>(a: seq<T>, b: seq<T>)
    decreases |b|
  {
    if a == [] then true
    else if b == [] then false
    else if a[0] == b[0] then Subseq(a[1..], b[1..])
    else Subseq(a, b[1..])
  }

  lemma {:induction false} SubseqExtend<T>(a: seq<T>, b: seq<T>, y: T)
    requires Subseq(a, b)
    ensures Subseq(a, b + [y])
    decreases |b|
  {
    if a != [] {
      assert (b + [y])[1..] == b[1..] + [y];
      if a[0] != b[0] {
        SubseqExtend(a, b[1..], y);
      } else {
        SubseqExtend(a[1..], b[1..], y);
      }
    }
  }

  lemma {:induction false} SubseqAppendBoth<T>(a: seq<T>, b: seq<T>, y: T)
    requires Subseq(a, b)
    ensures Subseq(a + [y], b + [y])
    decreases |b|
  {
    if b == [] {
      assert a == [];
      assert Subseq(([] + [y])[1..], ([] + [y])[1..]);
    } else {
      assert (b + [y])[1..] == b[1..] + [y];
      if a == [] {
        if b[0] != y {
          SubseqAppendBoth(a, b[1..], y);
        }
      } else if a[0] == b[0] {
        assert (a + [y])[1..] == a[1..] + [y];
        SubseqAppendBoth(a[1..], b[1..], y);
      } else {
        SubseqAppendBoth(a, b[1..], y);
      }
    }
  }

  /**
   * What a subscriber's channel has seen: the buffer is the newest part of the
   * messages sent, and what it received is a subsequence of the part before.
   */
  predicate InOrder(v: View, sent: seq<string>)
  {
    |v.buffered| <= |sent| &&
    sent[|sent| - |v.buffered|..] == v.buffered &&
    Subseq(v.received, sent[..|sent| - |v.buffered|])
  }

  lemma PutKeepsOrder(v: View, sent: seq<string>, m: string)
    requires |v.buffered| <= Capacity && InOrder(v, sent)
    ensures InOrder(View(Push(v.buffered, m), v.received), sent + [m])
  {
    var b, cut := v.buffered, |sent| - |v.buffered|;
    var sent' := sent + [m];
    assert sent == sent[..cut] + b;
    if |b| < Capacity {
      var b' := b + [m];
      assert Push(b, m) == b';
      assert sent' == sent[..cut] + b';
      assert sent'[..|sent'| - |b'|] == sent[..cut];
      assert sent'[|sent'| - |b'|..] == b';
    } else {
      var b' := b[1..] + [m];
      assert Push(b, m) == b';
      assert sent' == (sent[..cut] + [b[0]]) + b';
      assert sent'[..|sent'| - |b'|] == sent[..cut] + [b[0]];
      assert sent'[|sent'| - |b'|..] == b';
      SubseqExtend(v.received, sent[..cut], b[0]);
    }
  }

  lemma TakeKeepsOrder(v: View, sent: seq<string>)
    requires v.buffered != [] && InOrder(v, sent)
    ensures InOrder(View(v.buffered[1..], v.received + [v.buffered[0]]), sent)
  {
    var cut := |sent| - |v.buffered|;
    assert sent == sent[..cut] + v.buffered;
    assert sent[..cut + 1] == sent[..cut] + [v.buffered[0]];
    SubseqAppendBoth(v.received, sent[..cut], v.buffered[0]);
  }

  /**
   * Order preservation and late join: for a subscriber whose channel starts
   * empty, the buffer is always the newest part of what was sent since, and what
   * it received is the older part with some messages dropped, never reordered.
   */
  lemma {:induction false} RunPreservesOrder(evs: seq<Event>)
    ensures InOrder(Run([], evs), Puts(evs))
    decreases |evs|
  {
    if evs != [] {
      var init, e := evs[..|evs| - 1], evs[|evs| - 1];
      RunPreservesOrder(init);
      var v, sent := Run([], init), Puts(init);
      match e
      case Put(m) =>
        assert Puts(evs) == sent + [m];
        PutKeepsOrder(v, sent, m);
      case Take =>
        assert Puts(evs) == sent;
        if v.buffered != [] {
          TakeKeepsOrder(v, sent);
        }
    }
  }
}
