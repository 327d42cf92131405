/**
 * The relay's shared state: the registry of subscriber channels and the
 * buffered contents of every channel, with the operations that the serial
 * reader and the connection sessions perform on it. Each method is one step
 * taken under the registry lock (or, for a receive, on the session's own
 * channel), so steps are atomic with respect to each other.
 */
module Relay {
  import opened Wrappers
  import opened Framing
  import opened BoundedQueue
  import opened Registry
  import opened Broadcast

  /** The framed units of a run of scanned lines, in order. */
  function FrameAll(lines: seq<string>): (units: seq<string>)
    ensures |units| == |lines|
    ensures forall i :: 0 <= i < |lines| ==> units[i] == Frame(lines[i])
  {
    seq(|lines|, i requires 0 <= i < |lines| => Frame(lines[i]))
  }

  /** How a session's delivery loop stopped. */
  datatype Outcome =
    | Suspended          // its channel is empty: it waits for the next publish
    | Closed(lost: string)  // writing `lost` failed: the session has ended

  /**
   * The unregistering pass over the registry slice. The scan runs over the
   * slice as it was when the loop began, reading its backing array (`backing`)
   * while the slice length (`len`) shrinks; a match is overwritten with the
   * last entry of the slice and the slice is shortened by one.
   */
  method SwapRemoveScan(s: seq<Handle>, h: Handle) returns (r: seq<Handle>)
    requires Distinct(s)
    ensures r == Removed(s, h)
  {
    // where the scan will meet `h`, or the end if it is absent
    ghost var at := if h in s then IndexOf(s, h) else |s|;
    var n := |s|;
    var backing := s;
    var len := n;
    var i := 0;
    while i < n
      invariant 0 <= i <= n == |backing|
      invariant at < i ==> backing == s[at := s[n - 1]] && len == n - 1
      invariant i <= at ==> backing == s && len == n
    {
      if backing[i] == h {
        assert i == at;
        // the slice still has its full length, so the index is in range
        assert i < len;
        backing := backing[i := backing[len - 1]];
        len := len - 1;
      }
      i := i + 1;
    }
    r := backing[..len];
  }

  class Hub {
    /** The registered channels, in slice order. */
    var readers: seq<Handle>
    /** The buffered messages of every channel made so far, oldest first. */
    var queues: map<Handle, Queue>
    /** The handle the next channel receives. */
    var next: Handle

    ghost predicate Valid()
      reads this
    {
      Distinct(readers) &&
      AllKnown(queues, readers) &&
      AllBounded(queues) &&
      (forall h :: h in queues ==> h < next)
    }

    constructor ()
      ensures Valid()
      ensures readers == [] && queues == map[]
    {
      readers := [];
      queues := map[];
      next := 0;
    }

    /** A connection's channel: fresh, empty, not yet registered. */
    method MakeChannel() returns (h: Handle)
      requires Valid()
      modifies this
      ensures Valid()
      ensures h !in old(queues) && queues == old(queues)[h := []]
      ensures readers == old(readers)
    {
      h := next;
      queues := queues[h := []];
      next := next + 1;
    }

    /** Appends a channel to the registry. */
    method Register(h: Handle)
      requires Valid()
      requires h in queues && h !in readers
      modifies this`readers
      ensures Valid()
      ensures readers == old(readers) + [h]
      ensures readers[..|old(readers)|] == old(readers)
    {
      AppendFresh(readers, h);
      readers := readers + [h];
    }

    /** Takes a channel out of the registry; a no-op when it is not registered. */
    method Unregister(h: Handle)
      requires Valid()
      modifies this`readers
      ensures Valid()
      ensures readers == Removed(old(readers), h)
      ensures h !in readers
      ensures multiset(readers) == multiset(old(readers)) - multiset{h}
      ensures |readers| == if h in old(readers) then |old(readers)| - 1 else |old(readers)|
      ensures h !in old(readers) ==> readers == old(readers)
    {
      RemovedSpec(readers, h);
      readers := SwapRemoveScan(readers, h);
    }

    /** Sends `m` into every registered channel, dropping its oldest message when full. */
    method Publish(m: string)
      requires Valid()
      modifies this`queues
      ensures Valid()
      ensures queues == PublishTo(old(queues), readers, m)
      ensures queues.Keys == old(queues).Keys
      ensures forall h :: h in queues ==>
        queues[h] == if h in readers then Push(old(queues)[h], m) else old(queues)[h]
    {
      var rs, qs := readers, queues;
      var i := 0;
      while i < |rs|
        invariant 0 <= i <= |rs|
        invariant AllKnown(queues, rs[..i])
        invariant qs == PublishTo(queues, rs[..i], m)
      {
        var reader := rs[i];
        var q := qs[reader];
        if |q| < Capacity {
          // the non-blocking send succeeds
          q := q + [m];
        } else {
          // full: receive the oldest message, then send
          q := q[1..];
          q := q + [m];
        }
        qs := qs[reader := q];
        assert rs[..i + 1][..i] == rs[..i];
        i := i + 1;
      }
      assert rs[..i] == rs;
      PublishToDistinct(queues, rs, m);
      queues := qs;
    }

    /** Receives the oldest message of a channel; `None` when receiving would block. */
    method Receive(h: Handle) returns (m: Option<string>)
      requires Valid() && h in queues
      modifies this`queues
      ensures Valid()
      ensures old(queues)[h] == [] ==> m == None && queues == old(queues)
      ensures old(queues)[h] != [] ==>
        m == Some(old(queues)[h][0]) && queues == old(queues)[h := old(queues)[h][1..]]
    {
      var q := queues[h];
      if q == [] {
        m := None;
      } else {
        m := Some(q[0]);
        queues := queues[h := q[1..]];
      }
    }

    /**
     * A session's delivery loop: writes the buffered messages oldest first
     * until a write fails, which unregisters the channel, or the channel is
     * empty, where the session waits for the next publish. Each write's
     * success is outside the model and chosen arbitrarily.
     */
    method Deliver(h: Handle) returns (written: seq<string>, outcome: Outcome)
      requires Valid() && h in readers && h in queues
      modifies this`readers, this`queues
      ensures Valid()
      ensures queues.Keys == old(queues).Keys
      ensures forall g :: g in queues && g != h ==> queues[g] == old(queues)[g]
      ensures outcome == Suspended ==>
        written == old(queues)[h] && queues[h] == [] && readers == old(readers)
      ensures outcome.Closed? ==>
        old(queues)[h] == written + [outcome.lost] + queues[h] &&
        readers == Removed(old(readers), h) && h !in readers
    {
      written := [];
      outcome := Suspended;
      var serving := true;
      while serving
        invariant Valid() && h in readers && h in queues
        invariant readers == old(readers)
        invariant queues.Keys == old(queues).Keys
        invariant forall g :: g in queues && g != h ==> queues[g] == old(queues)[g]
        invariant outcome == Suspended ==> old(queues)[h] == written + queues[h]
        invariant outcome == Suspended && !serving ==> queues[h] == []
        invariant outcome.Closed? ==> !serving && old(queues)[h] == written + [outcome.lost] + queues[h]
        decreases serving, |queues[h]|
      {
        var m := Receive(h);
        if m.None? {
          // the receive would block: wait for the next publish
          serving := false;
        } else {
          var ok: bool :| true;
          if ok {
            written := written + [m.value];
          } else {
            outcome := Closed(m.value);
            serving := false;
          }
        }
      }
      if outcome.Closed? {
        // the deferred cleanup after a failed write
        Unregister(h);
      }
    }

    /** A new connection: its own empty channel, appended to the registry. */
    method Connect() returns (h: Handle)
      requires Valid()
      modifies this
      ensures Valid()
      ensures h !in old(queues) && queues == old(queues)[h := []]
      ensures readers == old(readers) + [h]
    {
      h := MakeChannel();
      Register(h);
    }

    /**
     * The serial reader's loop: every scanned line is framed and published in
     * arrival order. With no session step in between, each registered channel
     * ends up holding the newest `Capacity` units of its old contents followed
     * by the new ones.
     */
    method Forward(lines: seq<string>)
      requires Valid()
      modifies this`queues
      ensures Valid()
      ensures queues.Keys == old(queues).Keys
      ensures forall h :: h in queues ==>
        queues[h] == if h in readers then PushAll(old(queues)[h], FrameAll(lines)) else old(queues)[h]
      ensures forall h :: h in queues && h in readers ==>
        queues[h] == Last(old(queues)[h] + FrameAll(lines), Capacity)
    {
      var units := FrameAll(lines);
      var i := 0;
      while i < |lines|
        invariant 0 <= i <= |lines|
        invariant Valid() && readers == old(readers)
        invariant queues.Keys == old(queues).Keys
        invariant forall h :: h in queues ==>
          queues[h] == if h in readers then PushAll(old(queues)[h], units[..i]) else old(queues)[h]
      {
        Publish(Frame(lines[i]));
        assert units[..i + 1][..i] == units[..i];
        i := i + 1;
      }
      assert units[..i] == units;
      forall h | h in queues && h in readers
        ensures queues[h] == Last(old(queues)[h] + units, Capacity)
      {
        PushAllKeepsNewest(old(queues)[h], units);
      }
    }
  }
}
