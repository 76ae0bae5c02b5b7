/** Nodes sharing one document: the bootstrap's configuration, every node's hint, the
    system keys and the ciphertexts, each under keys of its own. */
module ConfigSync {
  import opened Basics
  import opened Wire
  import opened KeySync
  import Decimal

  const CONFIG_KEY := "config-key-"
  const SYSTEM_KEYS_KEY := "sys-keys-"

  /** One bootstrap node and its configuration. `pkOf` is the public key a node computes
      under a configuration; indices are the map keys of `nodes`, so they are distinct. */
  datatype Setup = Setup(
    curve: Curve,
    bootstrap: nat,
    configBytes: Bytes,
    config: Bytes,
    pkOf: (nat, Bytes) -> Bytes,
    cidOf: Bytes -> Bytes,
    cidText: Bytes -> string)

  datatype Peer = Peer(node: Node, queue: seq<Announcement>)

  /** The document, everything ever written to it (old values may still be delivered), and
      the nodes with the announcements waiting to be applied. */
  datatype Net = Net(doc: map<string, Announcement>, written: set<(string, Announcement)>, nodes: map<nat, Peer>)

  const NOBODY := Net(map[], {}, map[])

  datatype Step =
    | Join(index: nat)
    | PublishConfig
    | LoadConfig(index: nat)
    | LoadHint(index: nat, previous: nat)
    | Deliver(index: nat, key: string, entry: Announcement)
    | ApplyNext(index: nat)
    | PublishHint(index: nat)
    | PublishSystemKeys(fault: Fault)
    | AddCiphertext(data: Bytes)

  function Write(n: Net, key: string, a: Announcement): Net {
    n.(doc := n.doc[key := a], written := n.written + {(key, a)})
  }

  function Enqueue(n: Net, index: nat, a: Announcement): Net
    requires index in n.nodes
  {
    n.(nodes := n.nodes[index := n.nodes[index].(queue := n.nodes[index].queue + [a])])
  }

  /** A step that a node cannot take (it would panic, or is not its turn) changes nothing. */
  function Apply(e: Setup, n: Net, step: Step): Net {
    match step
    case Join(i) => if i in n.nodes then n else n.(nodes := n.nodes[i := Peer(Node(BLANK, true), [])])
    case PublishConfig =>
      if e.bootstrap !in n.nodes || CONFIG_KEY in n.doc then n
      else
        var a := Announcement(Config, e.configBytes);
        Write(Enqueue(n, e.bootstrap, a), CONFIG_KEY, a)
    case LoadConfig(i) => if i in n.nodes && CONFIG_KEY in n.doc then Enqueue(n, i, n.doc[CONFIG_KEY]) else n
    case LoadHint(i, j) =>
      if i in n.nodes && 1 <= j < i && Decimal.Show(j) in n.doc then Enqueue(n, i, n.doc[Decimal.Show(j)]) else n
    case Deliver(i, key, a) => if i in n.nodes && (key, a) in n.written then Enqueue(n, i, a) else n
    case ApplyNext(i) =>
      if i !in n.nodes || n.nodes[i].queue == [] then n
      else
        var p := n.nodes[i];
        n.(nodes := n.nodes[i := Peer(Receive(e.curve, p.node, p.queue[0]), p.queue[1..])])
    case PublishHint(i) =>
      if i !in n.nodes || n.nodes[i].node.state.config.None? then n
      else
        var a := Announcement(Hint, e.pkOf(i, n.nodes[i].node.state.config.value));
        Write(Enqueue(n, i, a), Decimal.Show(i), a)
    case PublishSystemKeys(fault) =>
      if e.bootstrap !in n.nodes then n
      else
        var p := Publish(e.curve, n.nodes[e.bootstrap].node, fault);
        var m := if p.announced.Some? then Enqueue(n, e.bootstrap, p.announced.value) else n;
        if p.written.Some? then Write(m, SYSTEM_KEYS_KEY, Announcement(SystemKeys, p.written.value.data)) else m
    case AddCiphertext(data) => Write(n, e.cidText(e.cidOf(data)), Announcement(Doc, data))
  }

  function ExecFrom(e: Setup, n: Net, steps: seq<Step>): Net {
    if steps == [] then n else Apply(e, ExecFrom(e, n, steps[..|steps| - 1]), steps[|steps| - 1])
  }

  function Exec(e: Setup, steps: seq<Step>): Net { ExecFrom(e, NOBODY, steps) }

  /** The configuration's bytes deserialise to it, a public key's bytes to itself, and CID
      strings begin with `b`. */
  ghost predicate Sound(e: Setup) {
    && e.curve.configOf(e.configBytes) == Some(e.config)
    && (forall i: nat :: e.curve.hintOf(e.pkOf(i, e.config)) == Some(e.pkOf(i, e.config)))
    && (forall c: Bytes :: e.cidText(c) != "" && e.cidText(c)[0] == 'b')
  }

  /** No key of one kind is a key of another, and different indices have different keys. */
  lemma {:induction false} KeysApart(e: Setup, i: nat, j: nat, data: Bytes)
    requires Sound(e)
    ensures CONFIG_KEY != SYSTEM_KEYS_KEY
    ensures Decimal.Show(i) != CONFIG_KEY && Decimal.Show(i) != SYSTEM_KEYS_KEY
    ensures Decimal.Show(i) == Decimal.Show(j) ==> i == j
    ensures e.cidText(data) !in {CONFIG_KEY, SYSTEM_KEYS_KEY, Decimal.Show(i)}
  {
    assert Decimal.IsDigit(Decimal.Show(i)[0]);
    assert CONFIG_KEY[0] == 'c' && SYSTEM_KEYS_KEY[0] == 's';
    if Decimal.Show(i) == Decimal.Show(j) { Decimal.ShowInjective(i, j); }
  }

  /** Announcements that agree with the bootstrap's configuration. */
  ghost predicate Agreed(e: Setup, a: Announcement) {
    && (a.tag == Config ==> a.data == e.configBytes)
    && (a.tag == Hint ==> IsHint(e, a.data))
  }

  ghost predicate IsHint(e: Setup, hint: Bytes) { exists i: nat :: hint == e.pkOf(i, e.config) }

  ghost predicate StateAgreed(e: Setup, s: State) {
    && (s.config.Some? ==> s.config.value == e.config)
    && forall h | h in HintList(s) :: IsHint(e, h)
  }

  ghost predicate PeerAgreed(e: Setup, p: Peer) {
    StateAgreed(e, p.node.state) && forall k | 0 <= k < |p.queue| :: Agreed(e, p.queue[k])
  }

  /** Each key holds what belongs under it: what was ever written there still agrees. */
  ghost predicate EntryAgreed(e: Setup, key: string, a: Announcement) {
    && Agreed(e, a)
    && (key == CONFIG_KEY ==> a.tag == Config)
    && (key == SYSTEM_KEYS_KEY ==> a.tag == SystemKeys)
    && (forall i: nat | key == Decimal.Show(i) :: a == Announcement(Hint, e.pkOf(i, e.config)))
    && (forall c: Bytes | key == e.cidText(c) :: IsCiphertext(e, key, a))
  }

  /** The entry announces data under the CID of that very data. */
  ghost predicate IsCiphertext(e: Setup, key: string, a: Announcement) {
    exists x :: a == Announcement(Doc, x) && e.cidText(e.cidOf(x)) == key
  }

  function BootstrapHints(e: Setup, n: Net): seq<Bytes> {
    if e.bootstrap in n.nodes then HintList(n.nodes[e.bootstrap].node.state) else []
  }

  /** The keys, under the bootstrap's configuration, of the first two or more of these hints. */
  ghost predicate KeysOfFront(e: Setup, hints: seq<Bytes>, data: Bytes) {
    exists k: nat :: 2 <= k <= |hints| && data == e.curve.keysOf(e.config, hints[..k])
  }

  ghost predicate KeysAgreed(e: Setup, n: Net) {
    forall w | w in n.written && w.0 == SYSTEM_KEYS_KEY :: KeysOfFront(e, BootstrapHints(e, n), w.1.data)
  }

  ghost predicate Inv(e: Setup, n: Net) {
    && (forall k | k in n.doc :: (k, n.doc[k]) in n.written)
    && (forall w | w in n.written :: EntryAgreed(e, w.0, w.1))
    && (forall i | i in n.nodes :: PeerAgreed(e, n.nodes[i]))
    && KeysAgreed(e, n)
  }

  lemma FrontGrows(e: Setup, hints: seq<Bytes>, more: seq<Bytes>, data: Bytes)
    requires KeysOfFront(e, hints, data) && hints <= more
    ensures KeysOfFront(e, more, data)
  {
    var k: nat :| 2 <= k <= |hints| && data == e.curve.keysOf(e.config, hints[..k]);
    assert hints[..k] == more[..k];
  }

  lemma KeysStay(e: Setup, n: Net, m: Net)
    requires KeysAgreed(e, n) && m.written == n.written && BootstrapHints(e, n) <= BootstrapHints(e, m)
    ensures KeysAgreed(e, m)
  {
    forall w | w in m.written && w.0 == SYSTEM_KEYS_KEY ensures KeysOfFront(e, BootstrapHints(e, m), w.1.data) {
      FrontGrows(e, BootstrapHints(e, n), BootstrapHints(e, m), w.1.data);
    }
  }

  lemma WriteKeeps(e: Setup, n: Net, key: string, a: Announcement)
    requires Inv(e, n) && EntryAgreed(e, key, a)
    requires key == SYSTEM_KEYS_KEY ==> KeysOfFront(e, BootstrapHints(e, n), a.data)
    ensures Inv(e, Write(n, key, a))
  {
  }

  lemma EnqueueKeeps(e: Setup, n: Net, i: nat, a: Announcement)
    requires Inv(e, n) && i in n.nodes && Agreed(e, a)
    ensures Inv(e, Enqueue(n, i, a))
  {
    assert PeerAgreed(e, n.nodes[i]);
    KeysStay(e, n, Enqueue(n, i, a));
  }

  lemma ReceiveKeeps(e: Setup, s: Node, a: Announcement)
    requires Sound(e) && StateAgreed(e, s.state) && Agreed(e, a)
    ensures StateAgreed(e, Receive(e.curve, s, a).state)
    ensures HintList(s.state) <= HintList(Receive(e.curve, s, a).state)
  {
    if a.tag == Hint && s.alive {
      var i: nat :| a.data == e.pkOf(i, e.config);
      var hints := HintList(s.state) + [a.data];
      assert e.curve.hintOf(a.data) == Some(a.data);
      forall h | h in hints ensures IsHint(e, h) {}
    }
  }

  lemma HintEntryAgreed(e: Setup, i: nat)
    requires Sound(e)
    ensures EntryAgreed(e, Decimal.Show(i), Announcement(Hint, e.pkOf(i, e.config)))
  {
    KeysApart(e, i, i, []);
    forall j: nat | Decimal.Show(i) == Decimal.Show(j) ensures i == j { KeysApart(e, i, j, []); }
    forall c: Bytes ensures Decimal.Show(i) != e.cidText(c) { KeysApart(e, i, i, c); }
  }

  lemma FixedEntryAgreed(e: Setup, key: string, a: Announcement)
    requires Sound(e) && Agreed(e, a)
    requires (key == CONFIG_KEY && a.tag == Config) || (key == SYSTEM_KEYS_KEY && a.tag == SystemKeys)
    ensures EntryAgreed(e, key, a)
  {
    forall i: nat ensures key != Decimal.Show(i) { KeysApart(e, i, i, []); }
    forall c: Bytes ensures key != e.cidText(c) { KeysApart(e, 0, 0, c); }
  }

  lemma CiphertextEntryAgreed(e: Setup, data: Bytes)
    requires Sound(e)
    ensures EntryAgreed(e, e.cidText(e.cidOf(data)), Announcement(Doc, data))
  {
    var cid := e.cidOf(data);
    KeysApart(e, 0, 0, cid);
    assert IsCiphertext(e, e.cidText(cid), Announcement(Doc, data));
    forall i: nat ensures e.cidText(cid) != Decimal.Show(i) { KeysApart(e, i, i, cid); }
  }

  lemma ApplyNextKeeps(e: Setup, n: Net, i: nat)
    requires Sound(e) && Inv(e, n)
    ensures Inv(e, Apply(e, n, ApplyNext(i)))
  {
    if i in n.nodes && n.nodes[i].queue != [] {
      var p := n.nodes[i];
      assert PeerAgreed(e, p);
      ReceiveKeeps(e, p.node, p.queue[0]);
      forall k | 0 <= k < |p.queue[1..]| ensures Agreed(e, p.queue[1..][k]) { assert Agreed(e, p.queue[k + 1]); }
      assert PeerAgreed(e, Peer(Receive(e.curve, p.node, p.queue[0]), p.queue[1..]));
      KeysStay(e, n, Apply(e, n, ApplyNext(i)));
    }
  }

  lemma PublishKeeps(e: Setup, n: Net, i: nat, key: string, a: Announcement)
    requires Inv(e, n) && i in n.nodes && EntryAgreed(e, key, a) && key != SYSTEM_KEYS_KEY
    ensures Inv(e, Write(Enqueue(n, i, a), key, a))
  {
    EnqueueKeeps(e, n, i, a);
    WriteKeeps(e, Enqueue(n, i, a), key, a);
  }

  lemma SystemKeysKeep(e: Setup, n: Net, fault: Fault)
    requires Sound(e) && Inv(e, n)
    ensures Inv(e, Apply(e, n, PublishSystemKeys(fault)))
  {
    if e.bootstrap in n.nodes {
      var node := n.nodes[e.bootstrap].node;
      var p := Publish(e.curve, node, fault);
      PublishExact(e.curve, node, fault);
      assert PeerAgreed(e, n.nodes[e.bootstrap]);
      if p.announced.Some? {
        var a := p.announced.value;
        var m := Enqueue(n, e.bootstrap, a);
        EnqueueKeeps(e, n, e.bootstrap, a);
        FixedEntryAgreed(e, SYSTEM_KEYS_KEY, a);
        var hints := BootstrapHints(e, m);
        assert hints[..|hints|] == hints;
        assert KeysOfFront(e, hints, a.data);
        WriteKeeps(e, m, SYSTEM_KEYS_KEY, a);
      }
    }
  }

  lemma StepKeeps(e: Setup, n: Net, step: Step)
    requires Sound(e) && Inv(e, n)
    ensures Inv(e, Apply(e, n, step))
  {
    match step
    case Join(i) =>
      assert PeerAgreed(e, Peer(Node(BLANK, true), []));
      KeysStay(e, n, Apply(e, n, step));
    case PublishConfig =>
      var a := Announcement(Config, e.configBytes);
      FixedEntryAgreed(e, CONFIG_KEY, a);
      if e.bootstrap in n.nodes { PublishKeeps(e, n, e.bootstrap, CONFIG_KEY, a); }
    case LoadConfig(i) =>
      if i in n.nodes && CONFIG_KEY in n.doc {
        assert EntryAgreed(e, CONFIG_KEY, n.doc[CONFIG_KEY]);
        EnqueueKeeps(e, n, i, n.doc[CONFIG_KEY]);
      }
    case LoadHint(i, j) =>
      if i in n.nodes && Decimal.Show(j) in n.doc {
        assert EntryAgreed(e, Decimal.Show(j), n.doc[Decimal.Show(j)]);
        EnqueueKeeps(e, n, i, n.doc[Decimal.Show(j)]);
      }
    case Deliver(i, key, a) =>
      if i in n.nodes && (key, a) in n.written {
        assert EntryAgreed(e, key, a);
        EnqueueKeeps(e, n, i, a);
      }
    case ApplyNext(i) => ApplyNextKeeps(e, n, i);
    case PublishHint(i) =>
      if i in n.nodes && n.nodes[i].node.state.config.Some? {
        assert PeerAgreed(e, n.nodes[i]);
        HintEntryAgreed(e, i);
        KeysApart(e, i, i, []);
        PublishKeeps(e, n, i, Decimal.Show(i), Announcement(Hint, e.pkOf(i, e.config)));
      }
    case PublishSystemKeys(fault) => SystemKeysKeep(e, n, fault);
    case AddCiphertext(data) =>
      CiphertextEntryAgreed(e, data);
      KeysApart(e, 0, 0, e.cidOf(data));
      WriteKeeps(e, n, e.cidText(e.cidOf(data)), Announcement(Doc, data));
  }

  lemma {:induction false} Reachable(e: Setup, steps: seq<Step>)
    requires Sound(e)
    ensures Inv(e, Exec(e, steps))
  {
    if steps != [] {
      Reachable(e, steps[..|steps| - 1]);
      StepKeeps(e, Exec(e, steps[..|steps| - 1]), steps[|steps| - 1]);
    }
  }

  /** However nodes join, load, receive (even stale) entries and publish: every node's
      configuration is missing or the bootstrap's; the entry under an index is that node's
      key under that configuration; every hint any node holds is some node's key under it;
      the configuration entry, once there, is the bootstrap's; the system-key entry holds the
      keys, under that configuration, of the first two or more hints of the bootstrap; and an
      entry under a CID announces data with that CID. */
  lemma ConfigAgreement(e: Setup, steps: seq<Step>)
    requires Sound(e)
    ensures var n := Exec(e, steps);
            && (forall i | i in n.nodes && n.nodes[i].node.state.config.Some? ::
                n.nodes[i].node.state.config.value == e.config)
            && (forall i | i in n.nodes :: forall h | h in HintList(n.nodes[i].node.state) :: IsHint(e, h))
            && (forall i: nat | Decimal.Show(i) in n.doc ::
                n.doc[Decimal.Show(i)] == Announcement(Hint, e.pkOf(i, e.config)))
            && (CONFIG_KEY in n.doc ==> n.doc[CONFIG_KEY] == Announcement(Config, e.configBytes))
            && (SYSTEM_KEYS_KEY in n.doc ==>
                  && n.doc[SYSTEM_KEYS_KEY].tag == SystemKeys && e.bootstrap in n.nodes
                  && KeysOfFront(e, HintList(n.nodes[e.bootstrap].node.state), n.doc[SYSTEM_KEYS_KEY].data))
            && (forall c: Bytes | e.cidText(c) in n.doc :: IsCiphertext(e, e.cidText(c), n.doc[e.cidText(c)]))
  {
    Reachable(e, steps);
    var n := Exec(e, steps);
    forall i | i in n.nodes ensures StateAgreed(e, n.nodes[i].node.state) { assert PeerAgreed(e, n.nodes[i]); }
    forall k | k in n.doc ensures EntryAgreed(e, k, n.doc[k]) {}
    if SYSTEM_KEYS_KEY in n.doc {
      assert KeysOfFront(e, BootstrapHints(e, n), n.doc[SYSTEM_KEYS_KEY].data);
    }
  }

  /** A ciphertext added to the document is announced there under its CID, and disturbs neither
      the configuration nor any hint nor the system keys. */
  lemma CiphertextBeside(e: Setup, n: Net, data: Bytes, i: nat)
    requires Sound(e)
    ensures var m, cid := Apply(e, n, AddCiphertext(data)), e.cidText(e.cidOf(data));
            && cid in m.doc && m.doc[cid] == Announcement(Doc, data) && m.nodes == n.nodes
            && forall key | key in {CONFIG_KEY, SYSTEM_KEYS_KEY, Decimal.Show(i)} ::
                 (key in m.doc <==> key in n.doc) && (key in m.doc ==> m.doc[key] == n.doc[key])
  {
    KeysApart(e, i, i, e.cidOf(data));
  }

  // ---- A node starts up ----

  /** The hints of nodes 1 to k, in order. */
  function FirstHints(e: Setup, k: nat): seq<Bytes> {
    if k == 0 then [] else FirstHints(e, k - 1) + [e.pkOf(k, e.config)]
  }

  /** Loading the configuration, then the hints of nodes 1 to k. */
  function Loads(i: nat, k: nat): seq<Step> {
    if k == 0 then [LoadConfig(i)] else Loads(i, k - 1) + [LoadHint(i, k)]
  }

  /** The configuration's announcement, then those of the hints of nodes 1 to k. */
  ghost function Loaded(e: Setup, k: nat): seq<Announcement> {
    if k == 0 then [Announcement(Config, e.configBytes)]
    else Loaded(e, k - 1) + [Announcement(Hint, e.pkOf(k, e.config))]
  }

  /** Just joined, with the configuration and the hints of all nodes before it in the document. */
  ghost predicate Newcomer(e: Setup, n: Net, i: nat) {
    && i in n.nodes && n.nodes[i] == Peer(Node(BLANK, true), [])
    && CONFIG_KEY in n.doc && forall j: nat | 1 <= j < i :: Decimal.Show(j) in n.doc
  }

  lemma EntriesRead(e: Setup, n: Net, k: nat)
    requires Inv(e, n)
    ensures CONFIG_KEY in n.doc ==> n.doc[CONFIG_KEY] == Announcement(Config, e.configBytes)
    ensures Decimal.Show(k) in n.doc ==> n.doc[Decimal.Show(k)] == Announcement(Hint, e.pkOf(k, e.config))
  {
    assert CONFIG_KEY in n.doc ==> EntryAgreed(e, CONFIG_KEY, n.doc[CONFIG_KEY]);
    assert Decimal.Show(k) in n.doc ==> EntryAgreed(e, Decimal.Show(k), n.doc[Decimal.Show(k)]);
  }

  lemma LoadsQueued(e: Setup, n: Net, i: nat, k: nat, queue: seq<Announcement>)
    requires i in n.nodes && CONFIG_KEY in n.doc && (k == 0 || (k < i && Decimal.Show(k) in n.doc))
    ensures var m := n.(nodes := n.nodes[i := Peer(Node(BLANK, true), queue)]);
            var entry := n.doc[if k == 0 then CONFIG_KEY else Decimal.Show(k)];
            Apply(e, m, if k == 0 then LoadConfig(i) else LoadHint(i, k))
            == n.(nodes := n.nodes[i := Peer(Node(BLANK, true), queue + [entry])])
  {
  }

  lemma {:induction false} LoadsQueue(e: Setup, n: Net, i: nat, k: nat)
    requires Sound(e) && Inv(e, n) && Newcomer(e, n, i) && (k == 0 || k < i)
    ensures ExecFrom(e, n, Loads(i, k)) == n.(nodes := n.nodes[i := Peer(Node(BLANK, true), Loaded(e, k))])
  {
    hide Apply, Inv, Sound;
    var load := Loads(i, k);
    var before := load[..|load| - 1];
    EntriesRead(e, n, k);
    if k == 0 {
      assert before == [] && n.nodes[i := Peer(Node(BLANK, true), [])] == n.nodes;
      LoadsQueued(e, n, i, 0, []);
      assert [] + Loaded(e, 0) == Loaded(e, 0);
    } else {
      assert before == Loads(i, k - 1);
      LoadsQueue(e, n, i, k - 1);
      LoadsQueued(e, n, i, k, Loaded(e, k - 1));
    }
  }

  lemma {:induction false} ReceiveLast(curve: Curve, n: Node, queue: seq<Announcement>, a: Announcement)
    ensures ReceiveAll(curve, n, queue + [a]) == Receive(curve, ReceiveAll(curve, n, queue), a)
    decreases |queue|
  {
    if queue == [] {
      assert [a][1..] == [] && queue + [a] == [a];
    } else {
      assert (queue + [a])[1..] == queue[1..] + [a];
      ReceiveLast(curve, Receive(curve, n, queue[0]), queue[1..], a);
    }
  }

  lemma {:induction false} LoadedState(e: Setup, k: nat)
    requires Sound(e)
    ensures ReceiveAll(e.curve, Node(BLANK, true), Loaded(e, k))
         == Node(State(Some(e.config), if k == 0 then None else Some(FirstHints(e, k))), true)
  {
    if k == 0 {
      ReceiveLast(e.curve, Node(BLANK, true), [], Announcement(Config, e.configBytes));
      assert [] + Loaded(e, 0) == Loaded(e, 0);
    } else {
      LoadedState(e, k - 1);
      ReceiveLast(e.curve, Node(BLANK, true), Loaded(e, k - 1), Announcement(Hint, e.pkOf(k, e.config)));
    }
  }

  function Applies(i: nat, k: nat): seq<Step> { if k == 0 then [] else Applies(i, k - 1) + [ApplyNext(i)] }

  lemma AppliesOne(e: Setup, n: Net, i: nat, node: Node, queue: seq<Announcement>)
    requires i in n.nodes && queue != []
    ensures Apply(e, n.(nodes := n.nodes[i := Peer(node, queue)]), ApplyNext(i))
         == n.(nodes := n.nodes[i := Peer(Receive(e.curve, node, queue[0]), queue[1..])])
  {
    hide Receive;
  }

  lemma {:induction false} AppliesQueue(e: Setup, n: Net, i: nat, k: nat)
    requires i in n.nodes && k <= |n.nodes[i].queue|
    ensures ExecFrom(e, n, Applies(i, k)) == n.(nodes := n.nodes[i :=
              Peer(ReceiveAll(e.curve, n.nodes[i].node, n.nodes[i].queue[..k]), n.nodes[i].queue[k..])])
  {
    hide Apply, Receive;
    var p := n.nodes[i];
    if k > 0 {
      var steps := Applies(i, k);
      assert steps[..|steps| - 1] == Applies(i, k - 1);
      AppliesQueue(e, n, i, k - 1);
      AppliesOne(e, n, i, ReceiveAll(e.curve, p.node, p.queue[..k - 1]), p.queue[k - 1..]);
      assert p.queue[..k] == p.queue[..k - 1] + [p.queue[k - 1]];
      ReceiveLast(e.curve, p.node, p.queue[..k - 1], p.queue[k - 1]);
    } else {
      assert p.queue[..0] == [] && p.queue[0..] == p.queue && n.nodes[i := p] == n.nodes;
    }
  }

  lemma {:induction false} LoadedLength(e: Setup, k: nat)
    ensures |Loaded(e, k)| == k + 1
  {
    if k > 0 { LoadedLength(e, k - 1); }
  }

  /** In every reachable state, a newcomer that loads the configuration and the hints of the
      nodes before it, and applies what it has loaded, holds the bootstrap's configuration and
      the keys of nodes 1 to i - 1 under it, in order, and nothing else has changed. */
  lemma StartsUp(e: Setup, steps: seq<Step>, i: nat)
    requires Sound(e) && i >= 1 && Newcomer(e, Exec(e, steps), i)
    ensures var n := Exec(e, steps);
            var state := State(Some(e.config), if i == 1 then None else Some(FirstHints(e, i - 1)));
            ExecFrom(e, ExecFrom(e, n, Loads(i, i - 1)), Applies(i, i))
            == n.(nodes := n.nodes[i := Peer(Node(state, true), [])])
  {
    hide ExecFrom, Loads, Applies, Loaded, ReceiveAll, Inv, FirstHints, Exec, Sound;
    var n := Exec(e, steps);
    var m := ExecFrom(e, n, Loads(i, i - 1));
    Reachable(e, steps);
    LoadsQueue(e, n, i, i - 1);
    LoadedState(e, i - 1);
    LoadedLength(e, i - 1);
    AppliesQueue(e, m, i, i);
    assert Loaded(e, i - 1)[..i] == Loaded(e, i - 1) && Loaded(e, i - 1)[i..] == [];
    var p := Peer(ReceiveAll(e.curve, Node(BLANK, true), Loaded(e, i - 1)), []);
    assert m.nodes[i := p] == n.nodes[i := p];
  }

  // ---- Two nodes come up ----

  lemma ExecNext(e: Setup, n: Net, steps: seq<Step>, step: Step)
    ensures ExecFrom(e, n, steps + [step]) == Apply(e, ExecFrom(e, n, steps), step)
  {
    assert (steps + [step])[..|steps|] == steps;
  }

  lemma {:induction false} ExecOn(e: Setup, n: Net, steps: seq<Step>, more: seq<Step>)
    ensures ExecFrom(e, n, steps + more) == ExecFrom(e, ExecFrom(e, n, steps), more)
  {
    if more == [] {
      assert steps + more == steps;
    } else {
      assert (steps + more)[..|steps + more| - 1] == steps + more[..|more| - 1];
      ExecOn(e, n, steps, more[..|more| - 1]);
    }
  }

  /** Publishing, by a node that has nothing waiting, and applying what it has published. */
  lemma PublishesHint(e: Setup, n: Net, i: nat)
    requires Sound(e) && i in n.nodes && n.nodes[i].queue == [] && n.nodes[i].node.alive
    requires n.nodes[i].node.state.config == Some(e.config)
    ensures var a, node := Announcement(Hint, e.pkOf(i, e.config)), n.nodes[i].node;
            ExecFrom(e, n, [PublishHint(i), ApplyNext(i)]) ==
            Net(n.doc[Decimal.Show(i) := a], n.written + {(Decimal.Show(i), a)}, n.nodes[i :=
                Peer(Node(node.state.(hints := Some(HintList(node.state) + [a.data])), true), [])])
  {
    hide Apply, Receive;
    var a, node := Announcement(Hint, e.pkOf(i, e.config)), n.nodes[i].node;
    HintWritten(e, n, i);
    AppliesOne(e, Net(n.doc[Decimal.Show(i) := a], n.written + {(Decimal.Show(i), a)}, n.nodes), i, node, [a]);
    assert [PublishHint(i)] + [ApplyNext(i)] == [PublishHint(i), ApplyNext(i)];
    assert [] + [PublishHint(i)] == [PublishHint(i)] && [a][1..] == [];
    ExecNext(e, n, [PublishHint(i)], ApplyNext(i));
    ExecNext(e, n, [], PublishHint(i));
    ReceiveExact(e.curve, node, a);
  }

  lemma HintWritten(e: Setup, n: Net, i: nat)
    requires i in n.nodes && n.nodes[i].queue == [] && n.nodes[i].node.state.config == Some(e.config)
    ensures var a := Announcement(Hint, e.pkOf(i, e.config));
            Apply(e, n, PublishHint(i)) ==
            Net(n.doc[Decimal.Show(i) := a], n.written + {(Decimal.Show(i), a)},
                n.nodes[i := Peer(n.nodes[i].node, [a])])
  {
    var a := Announcement(Hint, e.pkOf(i, e.config));
    assert [] + [a] == [a];
  }

  lemma ThreeSteps(e: Setup, n: Net, a: Step, b: Step, c: Step)
    ensures ExecFrom(e, n, [a, b, c]) == Apply(e, Apply(e, Apply(e, n, a), b), c)
  {
    hide Apply;
    ExecNext(e, n, [], a);
    ExecNext(e, n, [a], b);
    ExecNext(e, n, [a, b], c);
    assert [] + [a] == [a] && [a] + [b] == [a, b] && [a, b] + [c] == [a, b, c];
  }

  /** The bootstrap joins first, publishes its configuration, and applies it. */
  lemma BootstrapConfigured(e: Setup)
    requires Sound(e)
    ensures var b, a := e.bootstrap, Announcement(Config, e.configBytes);
            Exec(e, [Join(b), PublishConfig, ApplyNext(b)]) ==
            Net(map[CONFIG_KEY := a], {(CONFIG_KEY, a)}, map[b := Peer(Node(State(Some(e.config), None), true), [])])
  {
    var b, a := e.bootstrap, Announcement(Config, e.configBytes);
    ThreeSteps(e, NOBODY, Join(b), PublishConfig, ApplyNext(b));
    var joined := Apply(e, NOBODY, Join(b));
    assert joined == Net(map[], {}, map[b := Peer(Node(BLANK, true), [])]);
    var published := Apply(e, joined, PublishConfig);
    assert [] + [a] == [a];
    assert published == Net(map[CONFIG_KEY := a], {(CONFIG_KEY, a)}, map[b := Peer(Node(BLANK, true), [a])]);
    assert [a][1..] == [];
    ReceiveExact(e.curve, Node(BLANK, true), a);
  }

  /** Another node joins, loads the configuration, and applies it. */
  lemma JoinerConfigured(e: Setup, n: Net, i: nat)
    requires Sound(e) && i !in n.nodes && CONFIG_KEY in n.doc
    requires n.doc[CONFIG_KEY] == Announcement(Config, e.configBytes)
    ensures ExecFrom(e, n, [Join(i), LoadConfig(i), ApplyNext(i)]) ==
            n.(nodes := n.nodes[i := Peer(Node(State(Some(e.config), None), true), [])])
  {
    var a := Announcement(Config, e.configBytes);
    ThreeSteps(e, n, Join(i), LoadConfig(i), ApplyNext(i));
    var joined := Apply(e, n, Join(i));
    assert joined == n.(nodes := n.nodes[i := Peer(Node(BLANK, true), [])]);
    assert [] + [a] == [a] && [a][1..] == [];
    ReceiveExact(e.curve, Node(BLANK, true), a);
  }

  /** The bootstrap is told of a hint, applies it, and publishes the system keys. */
  lemma KeysFollow(e: Setup, n: Net, key: string, hint: Bytes)
    requires e.bootstrap in n.nodes && (key, Announcement(Hint, hint)) in n.written
    requires e.curve.hintOf(hint) == Some(hint)
    requires var p := n.nodes[e.bootstrap];
             p.queue == [] && p.node.alive && p.node.state.config == Some(e.config) && HintCount(p.node.state) >= 1
    ensures var a, p := Announcement(Hint, hint), n.nodes[e.bootstrap];
            var hints := HintList(p.node.state) + [hint];
            var m := ExecFrom(e, n, [Deliver(e.bootstrap, key, a), ApplyNext(e.bootstrap), PublishSystemKeys(NoFault)]);
            && m.doc == n.doc[SYSTEM_KEYS_KEY := Announcement(SystemKeys, e.curve.keysOf(e.config, hints))]
            && e.bootstrap in m.nodes && m.nodes[e.bootstrap].node == Node(State(Some(e.config), Some(hints)), true)
            && forall j | j in n.nodes && j != e.bootstrap :: j in m.nodes && m.nodes[j] == n.nodes[j]
  {
    var b, a, p := e.bootstrap, Announcement(Hint, hint), n.nodes[e.bootstrap];
    ThreeSteps(e, n, Deliver(b, key, a), ApplyNext(b), PublishSystemKeys(NoFault));
    var told := Apply(e, n, Deliver(b, key, a));
    assert told.nodes[b].queue == [a] && [a][1..] == [];
    ReceiveExact(e.curve, p.node, a);
    var heard := Apply(e, told, ApplyNext(b));
    assert heard.nodes[b].node == Node(State(Some(e.config), Some(HintList(p.node.state) + [hint])), true);
    PublishExact(e.curve, heard.nodes[b].node, NoFault);
  }

  /** Bringing two nodes up: the bootstrap and any other, each configured and with its hint
      published and applied, the bootstrap hearing of the other's. */
  function BringUp(e: Setup, i: nat): seq<Step> {
    var b := e.bootstrap;
    [Join(b), PublishConfig, ApplyNext(b)] + [PublishHint(b), ApplyNext(b)] + [Join(i), LoadConfig(i), ApplyNext(i)]
    + [PublishHint(i), ApplyNext(i)]
    + [Deliver(b, Decimal.Show(i), Announcement(Hint, e.pkOf(i, e.config))), ApplyNext(b), PublishSystemKeys(NoFault)]
  }

  /** After it, both have the configuration, and the document holds the configuration, both
      hints, and the system keys of the two hints in order of arrival. */
  lemma TwoNodesComeUp(e: Setup, i: nat)
    requires Sound(e) && i != e.bootstrap
    ensures var n, b := Exec(e, BringUp(e, i)), e.bootstrap;
            var first, second := e.pkOf(b, e.config), e.pkOf(i, e.config);
            && n.doc == map[CONFIG_KEY := Announcement(Config, e.configBytes),
                            Decimal.Show(b) := Announcement(Hint, first),
                            Decimal.Show(i) := Announcement(Hint, second),
                            SYSTEM_KEYS_KEY := Announcement(SystemKeys, e.curve.keysOf(e.config, [first, second]))]
            && b in n.nodes && n.nodes[b].node == Node(State(Some(e.config), Some([first, second])), true)
            && i in n.nodes && n.nodes[i].node == Node(State(Some(e.config), Some([second])), true)
  {
    hide Apply, ExecFrom, Sound;
    var b, a := e.bootstrap, Announcement(Hint, e.pkOf(i, e.config));
    var s1, s2, s3 := [Join(b), PublishConfig, ApplyNext(b)], [PublishHint(b), ApplyNext(b)],
        [Join(i), LoadConfig(i), ApplyNext(i)];
    var s4 := [PublishHint(i), ApplyNext(i)];
    var s5 := [Deliver(b, Decimal.Show(i), a), ApplyNext(b), PublishSystemKeys(NoFault)];
    ExecOn(e, NOBODY, s1 + s2 + s3 + s4, s5);
    ExecOn(e, NOBODY, s1 + s2 + s3, s4);
    ExecOn(e, NOBODY, s1 + s2, s3);
    ExecOn(e, NOBODY, s1, s2);
    KeysApart(e, b, i, []);
    assert forall x: Bytes :: [] + [x] == [x];
    var n1 := ExecFrom(e, NOBODY, s1);
    BootstrapConfigured(e);
    PublishesHint(e, n1, b);
    var n2 := ExecFrom(e, n1, s2);
    JoinerConfigured(e, n2, i);
    var n3 := ExecFrom(e, n2, s3);
    PublishesHint(e, n3, i);
    var n4 := ExecFrom(e, n3, s4);
    HintRead(e, i);
    KeysFollow(e, n4, Decimal.Show(i), a.data);
    assert n4.doc == map[CONFIG_KEY := Announcement(Config, e.configBytes),
                         Decimal.Show(b) := Announcement(Hint, e.pkOf(b, e.config)), Decimal.Show(i) := a];
    var hints := HintList(n4.nodes[b].node.state) + [a.data];
    assert hints == [e.pkOf(b, e.config), e.pkOf(i, e.config)];
    var keys := Announcement(SystemKeys, e.curve.keysOf(e.config, hints));
    assert ExecFrom(e, n4, s5).doc == n4.doc[SYSTEM_KEYS_KEY := keys];
    assert BringUp(e, i) == s1 + s2 + s3 + s4 + s5;
  }

  lemma HintRead(e: Setup, i: nat)
    requires Sound(e)
    ensures e.curve.hintOf(e.pkOf(i, e.config)) == Some(e.pkOf(i, e.config))
  {
  }
}
