/** A node's shared state, the loop that applies announcements to it, and the bootstrap's
    loop that republishes the system keys when hints arrive. */
module KeySync {
  import opened Basics
  import opened Wire

  /** Deserialisation of configurations and public keys (`None`: refused, which panics), and
      the system keys computed from a configuration and the hints. */
  datatype Curve = Curve(
    configOf: Bytes -> Option<Bytes>,
    hintOf: Bytes -> Option<Bytes>,
    keysOf: (Bytes, seq<Bytes>) -> Bytes)

  datatype State = State(config: Option<Bytes>, hints: Option<seq<Bytes>>)

  const BLANK := State(None, None)

  /** `State::update`; `None` is a panic. Tags other than config and hint change nothing. */
  function Update(curve: Curve, s: State, a: Announcement): Option<State> {
    match a.tag
    case Config =>
      var config :- curve.configOf(a.data);
      Some(s.(config := Some(config)))
    case Hint =>
      var hint :- curve.hintOf(a.data);
      Some(s.(hints := Some((if s.hints.Some? then s.hints.value else []) + [hint])))
    case _ => Some(s)
  }

  /** A node's state with the task that applies announcements, which a panic kills. */
  datatype Node = Node(state: State, alive: bool)

  function Receive(curve: Curve, n: Node, a: Announcement): Node {
    if !n.alive then n
    else match Update(curve, n.state, a)
      case Some(s) => Node(s, true)
      case None => n.(alive := false)
  }

  function ReceiveAll(curve: Curve, n: Node, queue: seq<Announcement>): Node
    decreases |queue|
  {
    if queue == [] then n else ReceiveAll(curve, Receive(curve, n, queue[0]), queue[1..])
  }

  function HintCount(s: State): nat { if s.hints.Some? then |s.hints.value| else 0 }

  function HintList(s: State): seq<Bytes> { if s.hints.Some? then s.hints.value else [] }

  /** Where publishing can fail: computing the keys, announcing them, or writing the
      document, the last with or without the entry having been written. */
  datatype Fault = NoFault | KeysFail | AnnounceFails | WriteFails | WriteReported

  /** What is written to the system-key entry: the keys' bytes, and the configuration and the
      hints they were computed from. */
  datatype Publication = Publication(config: Bytes, hints: seq<Bytes>, data: Bytes)

  /** What a call to `publish_system_keys` does with the state it finds under the lock. Once
      the task that applies announcements is dead, nobody receives them and announcing fails. */
  datatype Published = Published(written: Option<Publication>, announced: Option<Announcement>, ok: bool)

  function Publish(curve: Curve, n: Node, fault: Fault): Published {
    var s := n.state;
    if s.config.None? || s.hints.None? then Published(None, None, false)
    else if |s.hints.value| <= 1 then Published(None, None, true)
    else if !n.alive || fault.KeysFail? || fault.AnnounceFails? then Published(None, None, false)
    else
      var keys := curve.keysOf(s.config.value, s.hints.value);
      var a := Announcement(SystemKeys, keys);
      if fault.WriteFails? then Published(None, Some(a), false)
      else Published(Some(Publication(s.config.value, s.hints.value, keys)), Some(a), fault.NoFault?)
  }

  /** One turn of the updater: the announcements applied before it takes the lock to count
      hints, those applied before it takes the lock again to publish, and the fault. */
  datatype Tick = Tick(before: seq<Announcement>, between: seq<Announcement>, fault: Fault)

  /** The bootstrap node, `last_hint_count`, the successive contents of the system-key
      entry, and the number of times the count was moved on. */
  datatype Updater = Updater(node: Node, last: nat, log: seq<Publication>, successes: nat)

  function RunTick(curve: Curve, u: Updater, t: Tick): Updater {
    var n := ReceiveAll(curve, u.node, t.before);
    var current := HintCount(n.state);
    var m := ReceiveAll(curve, n, t.between);
    if current <= u.last then u.(node := m)
    else
      var p := Publish(curve, m, t.fault);
      Updater(if p.announced.Some? then Receive(curve, m, p.announced.value) else m,
              if p.ok then current else u.last,
              if p.written.Some? then u.log + [p.written.value] else u.log,
              if p.ok then u.successes + 1 else u.successes)
  }

  function RunTicks(curve: Curve, u: Updater, ticks: seq<Tick>): Updater
    decreases |ticks|
  {
    if ticks == [] then u else RunTicks(curve, RunTick(curve, u, ticks[0]), ticks[1..])
  }

  /** The locked state of a node. */
  class NodeState {
    const curve: Curve
    var config: Option<Bytes>
    var hints: Option<seq<Bytes>>
    var alive: bool

    ghost function Now(): Node
      reads this
    {
      Node(State(config, hints), alive)
    }

    constructor (curve: Curve)
      ensures Now() == Node(State(None, None), true) && this.curve == curve
    {
      this.curve := curve;
      config, hints, alive := None, None, true;
    }

    /** Applies one announcement, or dies trying. */
    method Apply(a: Announcement)
      modifies this
      ensures Now() == Receive(curve, old(Now()), a)
    {
      if !alive {
        return;
      }
      match a.tag
      case Config =>
        var parsed := curve.configOf(a.data);
        if parsed.None? {
          alive := false;
        } else {
          config := Some(parsed.value);
        }
      case Hint =>
        var parsed := curve.hintOf(a.data);
        if parsed.None? {
          alive := false;
        } else if hints.Some? {
          hints := Some(hints.value + [parsed.value]);
        } else {
          hints := Some([parsed.value]);
          assert [] + [parsed.value] == [parsed.value];
        }
      case _ =>
    }

    method Drain(queue: seq<Announcement>)
      modifies this
      ensures Now() == ReceiveAll(curve, old(Now()), queue)
    {
      var k := 0;
      while k < |queue|
        invariant 0 <= k <= |queue|
        invariant ReceiveAll(curve, Now(), queue[k..]) == ReceiveAll(curve, old(Now()), queue)
      {
        Apply(queue[k]);
        k := k + 1;
      }
    }
  }

  /** The system-key entry of the document and the tasks that write it. */
  class SystemKeysPublisher {
    const node: NodeState
    var log: seq<Publication>

    constructor (node: NodeState, log: seq<Publication>)
      ensures this.node == node && this.log == log
    {
      this.node, this.log := node, log;
    }

    /** `publish_system_keys`. Whatever is written are the keys of the configuration and of all
        the hints found under the lock; the node itself ignores the announcement. */
    method PublishKeys(fault: Fault) returns (ok: bool)
      modifies this, node
      ensures var p := Publish(node.curve, old(node.Now()), fault);
              && ok == p.ok
              && log == (if p.written.Some? then old(log) + [p.written.value] else old(log))
              && node.Now() == if p.announced.Some? then Receive(node.curve, old(node.Now()), p.announced.value)
                               else old(node.Now())
      ensures node.Now() == old(node.Now())
      ensures log == old(log)
              || (node.config.Some? && HintCount(node.Now().state) >= 2
                  && log == old(log) + [Publication(node.config.value, node.hints.value,
                                                    node.curve.keysOf(node.config.value, node.hints.value))])
    {
      if node.config.None? || node.hints.None? {
        return false;
      }
      if |node.hints.value| <= 1 {
        return true;
      }
      var config, hints := node.config.value, node.hints.value;
      if fault.KeysFail? {
        return false;
      }
      var bytes := node.curve.keysOf(config, hints);
      if fault.AnnounceFails? || !node.alive {
        return false;
      }
      node.Apply(Announcement(SystemKeys, bytes));
      if fault.WriteFails? {
        return false;
      }
      log := log + [Publication(config, hints, bytes)];
      return fault.NoFault?;
    }

    /** The updater's loop, its count starting at zero. */
    method RunUpdater(ticks: seq<Tick>) returns (last: nat, ghost successes: nat)
      modifies this, node
      ensures Updater(node.Now(), last, log, successes)
           == RunTicks(node.curve, Updater(old(node.Now()), 0, old(log), 0), ticks)
    {
      last, successes := 0, 0;
      var k := 0;
      while k < |ticks|
        invariant 0 <= k <= |ticks|
        invariant RunTicks(node.curve, Updater(node.Now(), last, log, successes), ticks[k..])
               == RunTicks(node.curve, Updater(old(node.Now()), 0, old(log), 0), ticks)
      {
        ghost var u := Updater(node.Now(), last, log, successes);
        node.Drain(ticks[k].before);
        var current := if node.hints.Some? then |node.hints.value| else 0;
        node.Drain(ticks[k].between);
        if current > last {
          var ok := PublishKeys(ticks[k].fault);
          if ok {
            last := current;
            successes := successes + 1;
          }
        }
        assert Updater(node.Now(), last, log, successes) == RunTick(node.curve, u, ticks[k]);
        assert ticks[k..][1..] == ticks[k + 1..];
        k := k + 1;
      }
    }
  }

  // ---- What every run keeps ----

  lemma {:induction false} HintsGrow(curve: Curve, n: Node, queue: seq<Announcement>)
    ensures HintList(n.state) <= HintList(ReceiveAll(curve, n, queue).state)
    ensures HintCount(n.state) <= HintCount(ReceiveAll(curve, n, queue).state)
    ensures n.state.config.Some? ==> ReceiveAll(curve, n, queue).state.config.Some?
    decreases |queue|
  {
    if queue != [] { HintsGrow(curve, Receive(curve, n, queue[0]), queue[1..]); }
  }

  /** Each publication covers at least two hints and extends the one before it. */
  ghost predicate NeverRollsBack(log: seq<Publication>) {
    && (forall k | 0 <= k < |log| :: |log[k].hints| >= 2)
    && (forall j, k | 0 <= j <= k < |log| :: log[j].hints <= log[k].hints)
  }

  /** What was published are the keys of the hints behind it. */
  ghost predicate KeysOfHints(curve: Curve, log: seq<Publication>) {
    forall k | 0 <= k < |log| :: log[k].data == curve.keysOf(log[k].config, log[k].hints)
  }

  ghost predicate Inv(curve: Curve, u: Updater) {
    && KeysOfHints(curve, u.log)
    && u.successes <= u.last <= HintCount(u.node.state)
    && NeverRollsBack(u.log)
    && (forall k | 0 <= k < |u.log| :: u.log[k].hints <= HintList(u.node.state))
    && (u.last >= 2 ==> u.log != [] && |u.log[|u.log| - 1].hints| >= u.last)
  }

  /** `update`, told by what is announced: a configuration that deserialises replaces the old
      one, a hint that does joins the others at the end, everything else changes nothing, and
      bytes that do not deserialise kill the task, after which nothing changes any more. */
  lemma ReceiveExact(curve: Curve, n: Node, a: Announcement)
    ensures var m := Receive(curve, n, a);
            && (m.alive <==> n.alive && !(a.tag == Config && curve.configOf(a.data).None?)
                             && !(a.tag == Hint && curve.hintOf(a.data).None?))
            && m.state.config == (if m.alive && a.tag == Config then curve.configOf(a.data) else n.state.config)
            && m.state.hints == if m.alive && a.tag == Hint
                                then Some(HintList(n.state) + [curve.hintOf(a.data).value]) else n.state.hints
  {
  }

  /** A node ignores its own system-key announcements. */
  lemma KeysIgnored(curve: Curve, n: Node, keys: Bytes)
    ensures Receive(curve, n, Announcement(SystemKeys, keys)) == n
  {
  }

  /** Publishing writes the keys of the configuration and of all hints found, if there is a
      configuration, there are two hints or more, the task that applies announcements is alive,
      and nothing fails before the write; and announces the same bytes, unless announcing fails.
      With fewer hints it reports success and does nothing. */
  lemma PublishExact(curve: Curve, n: Node, fault: Fault)
    ensures var p, s := Publish(curve, n, fault), n.state;
            var able := s.config.Some? && HintCount(s) >= 2 && n.alive && !fault.KeysFail? && !fault.AnnounceFails?;
            && (p.announced.Some? <==> able) && (p.written.Some? <==> able && !fault.WriteFails?)
            && (able ==> p.announced.value == Announcement(SystemKeys, curve.keysOf(s.config.value, s.hints.value)))
            && (p.written.Some? ==>
                  && p.written.value.data == p.announced.value.data
                  && p.written.value.config == s.config.value && p.written.value.hints == s.hints.value)
            && (p.ok <==> s.config.Some? && s.hints.Some? && (HintCount(s) <= 1 || (able && fault.NoFault?)))
  {
  }

  lemma LogExtends(log: seq<Publication>, p: Publication)
    requires NeverRollsBack(log) && |p.hints| >= 2 && forall k | 0 <= k < |log| :: log[k].hints <= p.hints
    ensures NeverRollsBack(log + [p])
  {
  }

  /** What a turn does, told through the node's state after it. */
  lemma TickShape(curve: Curve, u: Updater, t: Tick)
    ensures var n := ReceiveAll(curve, u.node, t.before);
            var m := ReceiveAll(curve, n, t.between);
            var v := RunTick(curve, u, t);
            && v.node == m && HintList(u.node.state) <= HintList(m.state)
            && HintCount(u.node.state) <= HintCount(n.state) <= HintCount(m.state)
            && (v.log == u.log ||
                (m.state.config.Some? && HintCount(m.state) >= 2
                 && v.log == u.log + [Publication(m.state.config.value, HintList(m.state),
                                                  curve.keysOf(m.state.config.value, HintList(m.state)))]))
            && ((v.last == u.last && v.successes == u.successes)
                || (v.last == HintCount(n.state) > u.last && v.successes == u.successes + 1
                    && (v.last >= 2 ==> v.log != u.log)))
  {
    var n := ReceiveAll(curve, u.node, t.before);
    var m := ReceiveAll(curve, n, t.between);
    HintsGrow(curve, u.node, t.before);
    HintsGrow(curve, n, t.between);
    var p := Publish(curve, m, t.fault);
    if HintCount(n.state) > u.last && p.announced.Some? {
      KeysIgnored(curve, m, p.announced.value.data);
    }
  }

  lemma TickKeeps(curve: Curve, u: Updater, t: Tick)
    requires Inv(curve, u)
    ensures Inv(curve, RunTick(curve, u, t))
    ensures u.log <= RunTick(curve, u, t).log
    ensures HintList(u.node.state) <= HintList(RunTick(curve, u, t).node.state)
  {
    TickShape(curve, u, t);
    var v := RunTick(curve, u, t);
    var h := HintList(v.node.state);
    forall k | 0 <= k < |u.log| ensures u.log[k].hints <= h {}
    if v.log != u.log {
      LogExtends(u.log, v.log[|u.log|]);
    }
  }

  lemma {:induction false} TicksKeep(curve: Curve, u: Updater, ticks: seq<Tick>)
    requires Inv(curve, u)
    ensures Inv(curve, RunTicks(curve, u, ticks)) && u.log <= RunTicks(curve, u, ticks).log
    decreases |ticks|
  {
    if ticks != [] {
      TickKeeps(curve, u, ticks[0]);
      TicksKeep(curve, RunTick(curve, u, ticks[0]), ticks[1..]);
    }
  }

  /** The updater as the bootstrap spawns it, having published once without an error. */
  function Spawned(curve: Curve, n: Node, fault: Fault): Updater {
    var p := Publish(curve, n, fault);
    Updater(n, 0, if p.written.Some? then [p.written.value] else [], 0)
  }

  /** Under any interleaving of arriving announcements and any faults: the count never
      exceeds the hints, it moved on at most that often, and publications never roll back:
      each holds the keys of at least two hints, extends those before it, and is part of the hints. */
  lemma UpdaterSafe(curve: Curve, n: Node, fault: Fault, ticks: seq<Tick>)
    requires Publish(curve, n, fault).ok
    ensures var v := RunTicks(curve, Spawned(curve, n, fault), ticks);
            && v.successes <= v.last <= HintCount(v.node.state)
            && NeverRollsBack(v.log) && KeysOfHints(curve, v.log)
            && (v.log != [] ==> v.log[|v.log| - 1].hints <= HintList(v.node.state))
  {
    TicksKeep(curve, Spawned(curve, n, fault), ticks);
  }

  // ---- Convergence ----

  ghost predicate NoHints(queue: seq<Announcement>) { forall k | 0 <= k < |queue| :: queue[k].tag != Hint }

  ghost predicate Quiet(t: Tick) { NoHints(t.before) && NoHints(t.between) }

  lemma {:induction false} NoHintsNoChange(curve: Curve, n: Node, queue: seq<Announcement>)
    requires NoHints(queue)
    ensures ReceiveAll(curve, n, queue).state.hints == n.state.hints
    decreases |queue|
  {
    if queue != [] { NoHintsNoChange(curve, Receive(curve, n, queue[0]), queue[1..]); }
  }

  /** A turn that has nothing to publish, or publishes without an error. */
  ghost predicate Succeeds(curve: Curve, u: Updater, t: Tick) {
    var n := ReceiveAll(curve, u.node, t.before);
    HintCount(n.state) <= u.last || Publish(curve, ReceiveAll(curve, n, t.between), t.fault).ok
  }

  /** The count has caught up; from two hints on, the published keys cover every hint. */
  ghost predicate Settled(u: Updater) {
    && u.last == HintCount(u.node.state)
    && (u.last >= 2 ==> u.log != [] && u.log[|u.log| - 1].hints == HintList(u.node.state))
  }

  /** Once hints stop arriving, one successful turn settles the updater, and only that does. */
  lemma Converges(curve: Curve, u: Updater, t: Tick)
    requires Inv(curve, u) && Quiet(t)
    ensures Settled(RunTick(curve, u, t)) <==> Succeeds(curve, u, t)
    ensures RunTick(curve, u, t).node.state.hints == u.node.state.hints
  {
    var n := ReceiveAll(curve, u.node, t.before);
    NoHintsNoChange(curve, u.node, t.before);
    NoHintsNoChange(curve, n, t.between);
    TickKeeps(curve, u, t);
  }

  /** A settled updater publishes nothing more and stays settled while no hint arrives,
      whatever else does: its own announcements do not wake it up. */
  lemma {:induction false} StaysSettled(curve: Curve, u: Updater, ticks: seq<Tick>)
    requires Settled(u) && forall k | 0 <= k < |ticks| :: Quiet(ticks[k])
    ensures var v := RunTicks(curve, u, ticks);
            Settled(v) && v.log == u.log && v.last == u.last && v.node.state.hints == u.node.state.hints
    decreases |ticks|
  {
    if ticks != [] {
      var t := ticks[0];
      NoHintsNoChange(curve, u.node, t.before);
      NoHintsNoChange(curve, ReceiveAll(curve, u.node, t.before), t.between);
      StaysSettled(curve, RunTick(curve, u, t), ticks[1..]);
    }
  }

  /** No other configuration arrives. */
  ghost predicate OneConfig(curve: Curve, config: Bytes, queue: seq<Announcement>) {
    forall k | 0 <= k < |queue| && queue[k].tag == Config :: curve.configOf(queue[k].data) in {None, Some(config)}
  }

  ghost predicate Steady(curve: Curve, config: Bytes, ticks: seq<Tick>) {
    forall k | 0 <= k < |ticks| ::
      OneConfig(curve, config, ticks[k].before) && OneConfig(curve, config, ticks[k].between)
  }

  lemma {:induction false} ConfigStays(curve: Curve, config: Bytes, n: Node, queue: seq<Announcement>)
    requires n.state.config == Some(config) && OneConfig(curve, config, queue)
    ensures ReceiveAll(curve, n, queue).state.config == Some(config)
    decreases |queue|
  {
    if queue != [] {
      ReceiveExact(curve, n, queue[0]);
      ConfigStays(curve, config, Receive(curve, n, queue[0]), queue[1..]);
    }
  }

  lemma {:induction false} PublishedUnder(curve: Curve, config: Bytes, u: Updater, ticks: seq<Tick>)
    requires u.node.state.config == Some(config) && Steady(curve, config, ticks)
    requires forall k | 0 <= k < |u.log| :: u.log[k].config == config
    ensures var v := RunTicks(curve, u, ticks);
            v.node.state.config == Some(config) && forall k | 0 <= k < |v.log| :: v.log[k].config == config
    decreases |ticks|
  {
    if ticks != [] {
      var t := ticks[0];
      TickShape(curve, u, t);
      ConfigStays(curve, config, u.node, t.before);
      ConfigStays(curve, config, ReceiveAll(curve, u.node, t.before), t.between);
      PublishedUnder(curve, config, RunTick(curve, u, t), ticks[1..]);
    }
  }

  /** The whole story: after any past, as soon as one hint-free turn succeeds, what stands in
      the system-key entry (when there are two hints or more) are the keys of all hints, and it
      is not written again until a new hint arrives. They are keys under the configuration the
      updater was spawned with, if no other has arrived. */
  lemma CatchesUp(curve: Curve, n: Node, fault: Fault, past: seq<Tick>, t: Tick, later: seq<Tick>)
    requires Publish(curve, n, fault).ok && Quiet(t)
    requires Succeeds(curve, RunTicks(curve, Spawned(curve, n, fault), past), t)
    requires forall k | 0 <= k < |later| :: Quiet(later[k])
    ensures var u := RunTicks(curve, Spawned(curve, n, fault), past);
            var v := RunTick(curve, u, t);
            var w := RunTicks(curve, v, later);
            && w.log == v.log && HintList(w.node.state) == HintList(u.node.state)
            && (HintCount(w.node.state) >= 2 ==>
                  && w.log != []
                  && var p := w.log[|w.log| - 1];
                  && p.data == curve.keysOf(p.config, HintList(w.node.state))
                  && (Steady(curve, n.state.config.value, past + [t]) ==> p.config == n.state.config.value))
  {
    hide RunTick, Steady, Succeeds, Quiet;
    var u := RunTicks(curve, Spawned(curve, n, fault), past);
    TicksKeep(curve, Spawned(curve, n, fault), past);
    Converges(curve, u, t);
    TickKeeps(curve, u, t);
    StaysSettled(curve, RunTick(curve, u, t), later);
    if Steady(curve, n.state.config.value, past + [t]) { SteadyKeys(curve, n, fault, past, t); }
  }

  lemma SteadyKeys(curve: Curve, n: Node, fault: Fault, past: seq<Tick>, t: Tick)
    requires Publish(curve, n, fault).ok && Steady(curve, n.state.config.value, past + [t])
    ensures var v := RunTick(curve, RunTicks(curve, Spawned(curve, n, fault), past), t);
            forall k | 0 <= k < |v.log| :: v.log[k].config == n.state.config.value
  {
    var config, u := n.state.config.value, RunTicks(curve, Spawned(curve, n, fault), past);
    SteadyPast(curve, config, past, t);
    PublishedUnder(curve, config, Spawned(curve, n, fault), past);
    hide Spawned, Publish, RunTick, Steady;
    PublishedUnder(curve, config, u, [t]);
    assert [t][1..] == [];
    assert RunTicks(curve, u, [t]) == RunTicks(curve, RunTick(curve, u, t), []) == RunTick(curve, u, t);
  }

  lemma SteadyPast(curve: Curve, config: Bytes, past: seq<Tick>, t: Tick)
    requires Steady(curve, config, past + [t])
    ensures Steady(curve, config, past) && Steady(curve, config, [t])
  {
    assert (past + [t])[|past|] == t;
    forall k | 0 <= k < |past|
      ensures OneConfig(curve, config, past[k].before) && OneConfig(curve, config, past[k].between)
    {
      assert (past + [t])[k] == past[k];
    }
  }

  // ---- When the same keys are published again ----

  /** No publication repeats the one before it. */
  ghost predicate StrictlyGrows(log: seq<Publication>) {
    forall j, k | 0 <= j < k < |log| :: |log[j].hints| < |log[k].hints|
  }

  /** A turn that finds more hints than the count, and can announce and write, while there are exactly as
      many hints as the last publication has. */
  predicate Repeats(curve: Curve, u: Updater, t: Tick) {
    var n := ReceiveAll(curve, u.node, t.before);
    var m := ReceiveAll(curve, n, t.between);
    && u.log != [] && HintCount(n.state) > u.last && m.state.config.Some?
    && m.alive && (t.fault.NoFault? || t.fault.WriteReported?) && HintCount(m.state) == |u.log[|u.log| - 1].hints|
  }

  /** Exactly such a turn publishes the hints of the last publication once more. */
  lemma RepeatsIff(curve: Curve, u: Updater, t: Tick)
    requires Inv(curve, u) && u.log != []
    ensures var v := RunTick(curve, u, t);
            Repeats(curve, u, t) <==> |v.log| == |u.log| + 1 && v.log[|u.log|].hints == u.log[|u.log| - 1].hints
  {
    TickShape(curve, u, t);
    TickKeeps(curve, u, t);
    var v := RunTick(curve, u, t);
    assert u.log[|u.log| - 1].hints <= HintList(v.node.state);
  }

  /** No turn of a run does. */
  predicate NeverRepeats(curve: Curve, u: Updater, ticks: seq<Tick>)
    decreases |ticks|
  {
    ticks == [] || (!Repeats(curve, u, ticks[0]) && NeverRepeats(curve, RunTick(curve, u, ticks[0]), ticks[1..]))
  }

  lemma TickStrict(curve: Curve, u: Updater, t: Tick)
    requires Inv(curve, u) && StrictlyGrows(u.log)
    ensures StrictlyGrows(RunTick(curve, u, t).log) <==> !Repeats(curve, u, t)
  {
    TickShape(curve, u, t);
    TickKeeps(curve, u, t);
    var v := RunTick(curve, u, t);
    if u.log != [] {
      RepeatsIff(curve, u, t);
      if v.log != u.log {
        var last, next := u.log[|u.log| - 1].hints, v.log[|u.log|].hints;
        assert v.log[|u.log| - 1].hints <= next;
        assert |last| == |next| ==> last == next;
        if |last| < |next| {
          forall j, k | 0 <= j < k < |v.log| ensures |v.log[j].hints| < |v.log[k].hints| {
            if k == |u.log| { assert v.log[j].hints <= v.log[|u.log| - 1].hints; }
          }
        }
      }
    }
  }

  lemma {:induction false} TicksStrict(curve: Curve, u: Updater, ticks: seq<Tick>)
    requires Inv(curve, u) && StrictlyGrows(u.log)
    ensures StrictlyGrows(RunTicks(curve, u, ticks).log) <==> NeverRepeats(curve, u, ticks)
    decreases |ticks|
  {
    if ticks != [] {
      var v := RunTick(curve, u, ticks[0]);
      TickKeeps(curve, u, ticks[0]);
      TickStrict(curve, u, ticks[0]);
      if Repeats(curve, u, ticks[0]) {
        TicksKeep(curve, v, ticks[1..]);
      } else {
        TicksStrict(curve, v, ticks[1..]);
      }
    }
  }

  /** Over every run of the updater: each publication has more hints than the one before it
      if and only if no turn of the run repeats. */
  lemma PublishedOnceIff(curve: Curve, n: Node, fault: Fault, ticks: seq<Tick>)
    requires Publish(curve, n, fault).ok
    ensures StrictlyGrows(RunTicks(curve, Spawned(curve, n, fault), ticks).log) <==>
        NeverRepeats(curve, Spawned(curve, n, fault), ticks)
  {
    TicksStrict(curve, Spawned(curve, n, fault), ticks);
  }

  /** The keys of these hints. */
  function KeysPublication(curve: Curve, config: Bytes, hints: seq<Bytes>): Publication {
    Publication(config, hints, curve.keysOf(config, hints))
  }

  /** The count starts at zero although keys have been published already: with two hints at
      the start, the first turn publishes them again, nothing at all having arrived. */
  lemma PublishedTwiceAtStart(curve: Curve, config: Bytes, a: Bytes, b: Bytes)
    ensures var n := Node(State(Some(config), Some([a, b])), true);
            RunTicks(curve, Spawned(curve, n, NoFault), [Tick([], [], NoFault)]).log ==
                [KeysPublication(curve, config, [a, b]), KeysPublication(curve, config, [a, b])]
  {
    var n := Node(State(Some(config), Some([a, b])), true);
    var t := Tick([], [], NoFault);
    assert [t][1..] == [];
    assert RunTicks(curve, Spawned(curve, n, NoFault), [t]) == RunTick(curve, Spawned(curve, n, NoFault), t);
  }

  /** A write that goes through but is reported as failed leaves the count where it was, so the
      next turn publishes the same keys again. */
  lemma ReportedFailurePublishedTwice(curve: Curve, config: Bytes, a: Bytes, b: Bytes)
    requires curve.hintOf(b) == Some(b)
    ensures var n := Node(State(Some(config), Some([a])), true);
            var ticks := [Tick([Announcement(Hint, b)], [], WriteReported), Tick([], [], NoFault)];
            var twice := [KeysPublication(curve, config, [a, b]), KeysPublication(curve, config, [a, b])];
            RunTicks(curve, Spawned(curve, n, NoFault), ticks).log == twice
  {
    var n := Node(State(Some(config), Some([a])), true);
    var first, second := Tick([Announcement(Hint, b)], [], WriteReported), Tick([], [], NoFault);
    var ab := Node(State(Some(config), Some([a, b])), true);
    assert [a] + [b] == [a, b] && first.before[1..] == [];
    assert ReceiveAll(curve, n, first.before) == ReceiveAll(curve, Receive(curve, n, first.before[0]), []) == ab;
    var v := RunTick(curve, Spawned(curve, n, NoFault), first);
    assert v == Updater(ab, 0, [KeysPublication(curve, config, [a, b])], 0);
    var ticks := [first, second];
    assert ticks[1..] == [second] && [second][1..] == [];
    assert RunTicks(curve, Spawned(curve, n, NoFault), ticks) == RunTicks(curve, v, [second]);
    assert RunTicks(curve, v, [second]) == RunTicks(curve, RunTick(curve, v, second), []);
  }

  /** Because the count is read under one lock and the hints under another, a hint that slips
      in between is published at once and then published again: here the second node's hint
      arrives before the first count and the third's in between. */
  lemma HintInBetweenPublishedTwice(curve: Curve, config: Bytes, a: Bytes, b: Bytes, c: Bytes)
    requires curve.hintOf(b) == Some(b) && curve.hintOf(c) == Some(c)
    ensures var n := Node(State(Some(config), Some([a])), true);
            var ticks := [Tick([Announcement(Hint, b)], [Announcement(Hint, c)], NoFault), Tick([], [], NoFault)];
            RunTicks(curve, Spawned(curve, n, NoFault), ticks).log ==
                [KeysPublication(curve, config, [a, b, c]), KeysPublication(curve, config, [a, b, c])]
  {
    var n := Node(State(Some(config), Some([a])), true);
    var first, second := Tick([Announcement(Hint, b)], [Announcement(Hint, c)], NoFault), Tick([], [], NoFault);
    var ab, abc := Node(State(Some(config), Some([a, b])), true), Node(State(Some(config), Some([a, b, c])), true);
    assert [a] + [b] == [a, b] && [a, b] + [c] == [a, b, c];
    assert first.before[1..] == [] && first.between[1..] == [];
    assert ReceiveAll(curve, n, first.before) == ReceiveAll(curve, Receive(curve, n, first.before[0]), []) == ab;
    assert ReceiveAll(curve, ab, first.between) == ReceiveAll(curve, Receive(curve, ab, first.between[0]), []) == abc;
    var v := RunTick(curve, Spawned(curve, n, NoFault), first);
    assert v == Updater(abc, 2, [KeysPublication(curve, config, [a, b, c])], 1);
    var ticks := [first, second];
    assert ticks[1..] == [second] && [second][1..] == [];
    assert RunTicks(curve, Spawned(curve, n, NoFault), ticks) == RunTicks(curve, v, [second]) ==
        RunTicks(curve, RunTick(curve, v, second), []);
  }
}
