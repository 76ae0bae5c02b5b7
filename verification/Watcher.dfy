/** The polling watcher: turns repeated snapshots of a pool into a channel that carries
    every item once. */
module Watcher {
  import opened Basics

  /** The ids already met, and everything sent down the channel so far. */
  datatype Watch<T> = Watch(seen: set<Bytes>, sent: seq<T>)

  function Start<T>(): Watch<T> { Watch({}, []) }

  /** One item of a snapshot, the receiver being there or gone. A failed send still leaves
      the id among those seen. */
  function Offer<T>(id: T -> Bytes, w: Watch<T>, x: T, open: bool): (Watch<T>, bool) {
    if id(x) in w.seen then (w, true)
    else if open then (Watch(w.seen + {id(x)}, w.sent + [x]), true)
    else (Watch(w.seen + {id(x)}, w.sent), false)
  }

  /** One snapshot, when the receiver goes away after taking `room` more items. */
  function Poll<T>(id: T -> Bytes, w: Watch<T>, xs: seq<T>, room: nat): (Watch<T>, bool)
    decreases |xs|
  {
    if xs == [] then (w, true)
    else
      var (v, ok) := Offer(id, w, xs[0], room > 0);
      if !ok then (v, false)
      else Poll(id, v, xs[1..], if id(xs[0]) in w.seen then room else room - 1)
  }

  /** The snapshots up to the first failed read. */
  function Answered<T>(polls: seq<Option<seq<T>>>): seq<T> {
    if polls == [] || polls[0].None? then [] else polls[0].value + Answered(polls[1..])
  }

  /** Everything up to the first failed read counts, and nothing after it. */
  lemma {:induction false} AnsweredExact<T>(snapshots: seq<seq<T>>, rest: seq<Option<seq<T>>>)
    requires rest == [] || rest[0].None?
    ensures Answered(Reads(snapshots) + rest) == Flatten(snapshots)
  {
    if snapshots == [] {
      assert Reads(snapshots) + rest == rest;
    } else {
      assert (Reads(snapshots) + rest)[1..] == Reads(snapshots[1..]) + rest;
      AnsweredExact(snapshots[1..], rest);
      FlattenCons(snapshots);
    }
  }

  /** Successful reads of these snapshots. */
  function Reads<T>(snapshots: seq<seq<T>>): seq<Option<seq<T>>> {
    seq(|snapshots|, k requires 0 <= k < |snapshots| => Some(snapshots[k]))
  }

  function Flatten<T>(snapshots: seq<seq<T>>): seq<T> {
    if snapshots == [] then [] else Flatten(snapshots[..|snapshots| - 1]) + snapshots[|snapshots| - 1]
  }

  lemma {:induction false} FlattenCons<T>(snapshots: seq<seq<T>>)
    requires snapshots != []
    ensures Flatten(snapshots) == snapshots[0] + Flatten(snapshots[1..])
  {
    var n := |snapshots| - 1;
    if n == 0 {
      assert Flatten(snapshots[..0]) == [];
    } else {
      FlattenCons(snapshots[..n]);
      assert snapshots[..n][1..] == snapshots[1..][..n - 1] && snapshots[1..][n - 1] == snapshots[n];
    }
  }

  class PollingWatcher<T> {
    const id: T -> Bytes
    var seen: set<Bytes>
    var sent: seq<T>

    ghost function Now(): Watch<T>
      reads this
    {
      Watch(seen, sent)
    }

    constructor (id: T -> Bytes)
      ensures Now() == Watch({}, []) && this.id == id
    {
      this.id := id;
      seen, sent := {}, [];
    }

    /** One round of the loop after `read_all` has answered. */
    method PollOnce(xs: seq<T>, room: nat) returns (ok: bool, left: nat)
      modifies this
      ensures (Now(), ok) == Poll(id, old(Now()), xs, room)
      ensures ok ==> left == room - (|sent| - |old(sent)|)
    {
      left := room;
      var k := 0;
      while k < |xs|
        invariant 0 <= k <= |xs| && left == room - (|sent| - |old(sent)|)
        invariant Poll(id, Now(), xs[k..], left) == Poll(id, old(Now()), xs, room)
      {
        if id(xs[k]) !in seen {
          seen := seen + {id(xs[k])};
          if left == 0 {
            return false, left;
          }
          sent := sent + [xs[k]];
          left := left - 1;
        }
        k := k + 1;
      }
      return true, left;
    }

    /** The loop, given what each `read_all` answers while the watcher is running (`None`
        is a failed read, which ends it), and how many items the receiver will take. */
    method WatchPool(polls: seq<Option<seq<T>>>, room: nat) returns (ok: bool)
      modifies this
      ensures (Now(), ok) == Poll(id, old(Now()), Answered(polls), room)
    {
      var k, left := 0, room;
      ghost var all := Answered(polls);
      while k < |polls|
        invariant 0 <= k <= |polls|
        invariant Poll(id, Now(), Answered(polls[k..]), left) == Poll(id, old(Now()), all, room)
      {
        if polls[k].None? {
          return true;
        }
        ghost var rest := Answered(polls[k + 1..]);
        PollConcat(id, Now(), polls[k].value, rest, left);
        assert Answered(polls[k..]) == polls[k].value + rest;
        ok, left := PollOnce(polls[k].value, left);
        if !ok {
          return false;
        }
        k := k + 1;
      }
      return true;
    }
  }

  lemma {:induction false} PollConcat<T>(id: T -> Bytes, w: Watch<T>, xs: seq<T>, ys: seq<T>, room: nat)
    ensures var (v, ok) := Poll(id, w, xs, room);
            && |v.sent| >= |w.sent|
            && (ok ==> |v.sent| - |w.sent| <= room)
            && Poll(id, w, xs + ys, room) == if ok then Poll(id, v, ys, room - (|v.sent| - |w.sent|)) else (v, false)
    decreases |xs|
  {
    if xs == [] {
      assert xs + ys == ys;
    } else {
      var (v, ok) := Offer(id, w, xs[0], room > 0);
      assert (xs + ys)[1..] == xs[1..] + ys;
      if ok { PollConcat(id, v, xs[1..], ys, if id(xs[0]) in w.seen then room else room - 1); }
    }
  }

  // ---- What the channel carries ----

  function Ids<T>(id: T -> Bytes, xs: seq<T>): set<Bytes> { set k | 0 <= k < |xs| :: id(xs[k]) }

  /** Every item whose id does not occur earlier, in order. */
  function FirstOccurrences<T>(id: T -> Bytes, xs: seq<T>): seq<T> {
    if xs == [] then []
    else
      var n := |xs| - 1;
      FirstOccurrences(id, xs[..n]) + (if id(xs[n]) in Ids(id, xs[..n]) then [] else [xs[n]])
  }

  lemma FirstAppend<T>(id: T -> Bytes, xs: seq<T>, x: T)
    ensures FirstOccurrences(id, xs + [x]) == FirstOccurrences(id, xs) + (if id(x) in Ids(id, xs) then [] else [x])
    ensures Ids(id, xs + [x]) == Ids(id, xs) + {id(x)}
  {
    assert (xs + [x])[..|xs|] == xs;
    var ys := xs + [x];
    forall k | 0 <= k < |xs| ensures id(xs[k]) in Ids(id, ys) { assert ys[k] == xs[k]; }
    assert ys[|xs|] == x;
  }

  lemma {:induction false} FirstGrows<T>(id: T -> Bytes, xs: seq<T>, ys: seq<T>)
    ensures FirstOccurrences(id, xs) <= FirstOccurrences(id, xs + ys)
  {
    if ys == [] {
      assert xs + ys == xs;
    } else {
      FirstGrows(id, xs, ys[..|ys| - 1]);
      FirstAppend(id, xs + ys[..|ys| - 1], ys[|ys| - 1]);
      assert xs + ys[..|ys| - 1] + [ys[|ys| - 1]] == xs + ys;
    }
  }

  lemma {:induction false} FirstIds<T>(id: T -> Bytes, xs: seq<T>)
    ensures Ids(id, FirstOccurrences(id, xs)) == Ids(id, xs)
    ensures forall i, j | 0 <= i < j < |FirstOccurrences(id, xs)| ::
              id(FirstOccurrences(id, xs)[i]) != id(FirstOccurrences(id, xs)[j])
  {
    if xs != [] {
      var n := |xs| - 1;
      FirstIds(id, xs[..n]);
      assert xs[..n] + [xs[n]] == xs;
      FirstAppend(id, xs[..n], xs[n]);
      var f := FirstOccurrences(id, xs[..n]);
      if id(xs[n]) !in Ids(id, xs[..n]) {
        FirstAppendIds(id, f, xs[n]);
        assert forall i | 0 <= i < |f| :: id(f[i]) in Ids(id, f);
      } else {
        assert Ids(id, xs[..n]) + {id(xs[n])} == Ids(id, xs[..n]);
        assert f + [] == f;
      }
    }
  }

  lemma FirstAppendIds<T>(id: T -> Bytes, xs: seq<T>, x: T)
    ensures Ids(id, xs + [x]) == Ids(id, xs) + {id(x)}
  {
    FirstAppend(id, xs, x);
  }

  /** With `past` the items met before, a poll leaves the channel holding the first
      occurrences of everything met, cut off where the receiver went away. */
  lemma {:induction false} PollFrom<T>(id: T -> Bytes, past: seq<T>, w: Watch<T>, xs: seq<T>, room: nat)
    requires w.sent == FirstOccurrences(id, past) && w.seen == Ids(id, past)
    ensures var (v, ok) := Poll(id, w, xs, room);
            var all := FirstOccurrences(id, past + xs);
            var capacity := |w.sent| + room;
            && (ok <==> |all| <= capacity)
            && v.sent == all[..Min(|all|, capacity)]
            && v.seen == Ids(id, v.sent) + (if ok then {} else {id(all[capacity])})
    decreases |xs|
  {
    if xs == [] {
      assert past + xs == past;
      FirstIds(id, past);
    } else {
      var x := xs[0];
      var next := past + [x];
      FirstAppend(id, past, x);
      assert next + xs[1..] == past + xs;
      var (v, ok) := Offer(id, w, x, room > 0);
      if ok {
        PollFrom(id, next, v, xs[1..], if id(xs[0]) in w.seen then room else room - 1);
      } else {
        FirstGrows(id, next, xs[1..]);
        FirstIds(id, past);
        var all := FirstOccurrences(id, past + xs);
        assert all[..|w.sent|] == w.sent && all[|w.sent|] == x;
      }
    }
  }

  /** For any snapshots whatsoever, and a receiver that takes `room` items: the channel is
      the first-occurrence list of all snapshots read, cut off at `room`; the ids seen are
      those sent, and one more exactly when a send failed. */
  lemma WatchExact<T>(id: T -> Bytes, polls: seq<Option<seq<T>>>, room: nat)
    ensures var (v, ok) := Poll(id, Start(), Answered(polls), room);
            var all := FirstOccurrences(id, Answered(polls));
            && (ok <==> |all| <= room)
            && v.sent == all[..Min(|all|, room)]
            && v.seen == Ids(id, v.sent) + (if ok then {} else {id(all[room])})
            && (forall i, j | 0 <= i < j < |v.sent| :: id(v.sent[i]) != id(v.sent[j]))
  {
    assert [] + Answered(polls) == Answered(polls);
    PollFrom(id, [], Start(), Answered(polls), room);
    FirstIds(id, Answered(polls));
  }

  /** Snapshots that only ever grow at the end, with distinct ids: the channel is the last
      snapshot read, item for item. */
  lemma {:induction false} GrowingPolls<T>(id: T -> Bytes, snapshots: seq<seq<T>>)
    requires snapshots != []
    requires forall k | 0 <= k < |snapshots| - 1 :: snapshots[k] <= snapshots[k + 1]
    requires var s := snapshots[|snapshots| - 1]; forall i, j | 0 <= i < j < |s| :: id(s[i]) != id(s[j])
    ensures FirstOccurrences(id, Flatten(snapshots)) == snapshots[|snapshots| - 1]
  {
    var n := |snapshots| - 1;
    var s := snapshots[n];
    if n == 0 {
      FirstCovers(id, [], [], s, |s|);
      assert Flatten(snapshots) == [] + s;
    } else {
      var before := Flatten(snapshots[..n]);
      assert snapshots[n - 1] == snapshots[..n][n - 1];
      GrowingPolls(id, snapshots[..n]);
      FirstCovers(id, before, snapshots[n - 1], s, |s|);
    }
    assert s[..|s|] == s;
  }

  lemma {:induction false} FirstCovers<T>(id: T -> Bytes, past: seq<T>, known: seq<T>, s: seq<T>, k: nat)
    requires FirstOccurrences(id, past) == known && known <= s && k <= |s|
    requires forall i, j | 0 <= i < j < |s| :: id(s[i]) != id(s[j])
    ensures FirstOccurrences(id, past + s[..k]) == if k <= |known| then known else s[..k]
  {
    hide FirstOccurrences, Ids;
    if k == 0 {
      assert past + s[..0] == past;
    } else {
      FirstCovers(id, past, known, s, k - 1);
      assert past + s[..k] == past + s[..k - 1] + [s[k - 1]];
      FirstAppend(id, past + s[..k - 1], s[k - 1]);
      FirstIds(id, past + s[..k - 1]);
      NextIsNew(id, if k - 1 <= |known| then known else s[..k - 1], s, k - 1);
    }
  }

  /** The next item is new exactly when the list does not reach it yet. */
  lemma NextIsNew<T>(id: T -> Bytes, f: seq<T>, s: seq<T>, k: nat)
    requires f <= s && k < |s| && |f| >= k
    requires forall i, j | 0 <= i < j < |s| :: id(s[i]) != id(s[j])
    ensures id(s[k]) in Ids(id, f) <==> k < |f|
    ensures k == |f| ==> f + [s[k]] == s[..k + 1]
  {
    if k < |f| {
      assert f[k] == s[k];
    } else {
      forall i | 0 <= i < |f| ensures id(f[i]) != id(s[k]) { assert f[i] == s[i]; }
    }
  }

  /** Offering the next item of a snapshot with distinct ids that the channel is the front of. */
  lemma OfferDelivers<T>(id: T -> Bytes, w: Watch<T>, snapshot: seq<T>, k: nat, open: bool)
    requires k < |snapshot| && k <= |w.sent| && w.sent <= snapshot && w.seen == Ids(id, w.sent)
    requires forall i, j | 0 <= i < j < |snapshot| :: id(snapshot[i]) != id(snapshot[j])
    ensures var (v, ok) := Offer(id, w, snapshot[k], open);
            && w.sent <= v.sent <= snapshot
            && (ok ==> k + 1 <= |v.sent| && v.seen == Ids(id, v.sent))
  {
    var x := snapshot[k];
    if k < |w.sent| {
      assert w.sent[k] == x;
      assert id(x) in Ids(id, w.sent);
    } else {
      forall i | 0 <= i < |w.sent| ensures id(w.sent[i]) != id(x) { assert w.sent[i] == snapshot[i]; }
      FirstAppend(id, w.sent, x);
      assert w.sent + [x] <= snapshot;
    }
  }
}
