/**
 * The subscriber registry: the list of registered channels. A channel is
 * identified by reference, which a handle stands for here.
 */
module Registry {
  /** Identity of one subscriber channel. */
  type Handle = nat

  /** No channel is registered twice. */
  predicate Distinct(s: seq<Handle>)
  {
    forall i, j :: 0 <= i < j < |s| ==> s[i] != s[j]
  }

  /** Position of the first occurrence of `h` in `s`. */
  function IndexOf(s: seq<Handle>, h: Handle): (i: nat)
    requires h in s
    ensures i < |s| && s[i] == h
    ensures forall k :: 0 <= k < i ==> s[k] != h
  {
    if s[0] == h then 0 else 1 + IndexOf(s[1..], h)
  }

  /** Copies the last entry into position `i` and drops the last slot. */
  function SwapRemove(s: seq<Handle>, i: nat): (r: seq<Handle>)
    requires i < |s|
    ensures |r| == |s| - 1
    ensures forall k :: 0 <= k < |r| && k != i ==> r[k] == s[k]
    ensures i < |r| ==> r[i] == s[|s| - 1]
  {
    s[i := s[|s| - 1]][..|s| - 1]
  }

  /** Away from the end, swap-remove splices the last entry into the gap. */
  lemma SwapRemoveSplice(s: seq<Handle>, i: nat)
    requires i < |s| - 1
    ensures SwapRemove(s, i) == s[..i] + [s[|s| - 1]] + s[i + 1..|s| - 1]
  {
  }

  /** Swap-remove takes out exactly the one entry at `i`; the rest stay, reordered. */
  lemma SwapRemoveMultiset(s: seq<Handle>, i: nat)
    requires i < |s|
    ensures multiset(SwapRemove(s, i)) == multiset(s) - multiset{s[i]}
  {
    var n := |s| - 1;
    if i == n {
      assert s == SwapRemove(s, i) + [s[i]];
    } else {
      SwapRemoveSplice(s, i);
      assert s == s[..i] + [s[i]] + s[i + 1..n] + [s[n]];
    }
  }

  /** The registry after removing `h`: swap-removed at its first position if present. */
  function Removed(s: seq<Handle>, h: Handle): (r: seq<Handle>)
    ensures h !in s ==> r == s
  {
    if h in s then SwapRemove(s, IndexOf(s, h)) else s
  }

  /** Occurrences of `h` in a nonempty list: those before the last slot, plus the last slot. */
  lemma CountSnoc(s: seq<Handle>, h: Handle)
    requires s != []
    ensures multiset(s)[h] == multiset(s[..|s| - 1])[h] + if s[|s| - 1] == h then 1 else 0
  {
    assert s == s[..|s| - 1] + [s[|s| - 1]];
  }

  /** In a distinct list `h` occurs once if present and not at all otherwise. */
  lemma {:induction false} DistinctCount(s: seq<Handle>, h: Handle)
    requires Distinct(s)
    ensures multiset(s)[h] == if h in s then 1 else 0
  {
    if s != [] {
      assert s == [s[0]] + s[1..];
      DistinctCount(s[1..], h);
    }
  }

  /** Swap-remove keeps a distinct list distinct and takes out the removed entry. */
  lemma SwapRemoveDistinct(s: seq<Handle>, i: nat)
    requires Distinct(s) && i < |s|
    ensures Distinct(SwapRemove(s, i)) && s[i] !in SwapRemove(s, i)
  {
    var r, n := SwapRemove(s, i), |s| - 1;
    forall a, b | 0 <= a < b < |r| ensures r[a] != r[b] {
      assert r[a] == (if a == i then s[n] else s[a]);
      assert r[b] == (if b == i then s[n] else s[b]);
    }
    forall k | 0 <= k < |r| ensures r[k] != s[i] {
      assert r[k] == (if k == i then s[n] else s[k]);
    }
  }

  /**
   * Removing a registered handle drops it and nothing else: the length falls by
   * one, the other handles remain (as a multiset), and the list stays distinct.
   * Removing an absent handle changes nothing.
   */
  lemma RemovedSpec(s: seq<Handle>, h: Handle)
    requires Distinct(s)
    ensures var r := Removed(s, h);
      h !in r &&
      Distinct(r) &&
      |r| == (if h in s then |s| - 1 else |s|) &&
      multiset(r) == multiset(s) - multiset{h} &&
      forall x :: x in r <==> x in s && x != h
  {
    if h in s {
      var i := IndexOf(s, h);
      SwapRemoveMultiset(s, i);
      SwapRemoveDistinct(s, i);
      MultisetMembers(s, SwapRemove(s, i), h);
    } else {
      assert multiset(s)[h] == 0;
      assert multiset(s) - multiset{h} == multiset(s);
    }
  }

  /** Membership after taking one element out of a multiset. */
  lemma MultisetMembers(s: seq<Handle>, r: seq<Handle>, h: Handle)
    requires multiset(r) == multiset(s) - multiset{h} && h !in r
    ensures forall x :: x in r <==> x in s && x != h
  {
    forall x ensures x in r <==> x in s && x != h {
      assert x in r <==> x in multiset(r);
      assert x in s <==> x in multiset(s);
    }
  }

  /** Unregistering twice is unregistering once. */
  lemma RemovedIdempotent(s: seq<Handle>, h: Handle)
    requires Distinct(s)
    ensures Removed(Removed(s, h), h) == Removed(s, h)
  {
    RemovedSpec(s, h);
  }

  /** Registering appends; existing entries keep their positions; no duplicates arise. */
  lemma AppendFresh(s: seq<Handle>, h: Handle)
    requires Distinct(s) && h !in s
    ensures Distinct(s + [h])
    ensures (s + [h])[..|s|] == s && (s + [h])[|s|] == h
  {
  }

  /** Unregistering the most recently registered handle restores the list. */
  lemma RemoveAfterAppend(s: seq<Handle>, h: Handle)
    requires h !in s
    ensures Removed(s + [h], h) == s
  {
    assert IndexOf(s + [h], h) == |s| by {
      assert forall k :: 0 <= k < |s| ==> (s + [h])[k] != h;
    }
  }
}
