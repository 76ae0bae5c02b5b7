/** The whole network as one machine: clients and workers send messages to the contracts,
    anybody writes to the document, the chain moves on, and every node's watcher and worker
    advance one small step at a time, in any order. */
module Network {
  import opened Basics
  import opened Gadgets
  import opened RequestPool
  import opened Stores
  import opened Wire
  import opened Watcher
  import opened Worker
  import Hex
  import Scale
  import Registry = PredicateRegistry

  /** The pool contract's hash and threshold, and a node's behaviour: the id of a request, the
      lists of requests that can be encoded, what a read of the pool yields, how a request is
      opened against the registry, the gadgets, and what is sent for a CID. */
  datatype Setting = Setting(
    hash: Bytes -> Bytes,
    threshold: nat,
    id: Request -> Bytes,
    fits: seq<Request> -> bool,
    fetch: Pool -> Option<seq<Request>>,
    open: (Registry.Registry, Request) -> Option<(Opened, seq<Bytes>)>,
    gadgets: Registered,
    finish: (Doc, nat, Request, Bytes) -> Verdict)

  /** `DecryptionRequest::id` */
  function RequestId(sha256: Bytes -> Bytes32): Request -> Bytes { HashId(RequestCodec(), sha256) }

  function HashId<T>(c: Scale.Codec<T>, hash: Bytes -> Bytes): T -> Bytes { x => hash(c.enc(x)) }

  /** A request opened, and its witness list. */
  function OpenList(env: Env, r: Registry.Registry, req: Request): Option<(Opened, seq<Bytes>)> {
    var o :- Open(env, r, req);
    var (ws, _) :- Witnesses().dec(o.raw);
    Some((o, ws))
  }

  /** The network as it is deployed. */
  function Deployed(hash: Bytes -> Bytes, threshold: nat, sha256: Bytes -> Bytes32, env: Env): Setting {
    Setting(hash, threshold, RequestId(sha256), RequestList().ok, FetchRequests,
            (r: Registry.Registry, req: Request) => OpenList(env, r, req),
            env.gadgets,
            (docs: Doc, index: nat, req: Request, cid: Bytes) => Finish(env, docs, index, req, cid))
  }

  /** A watcher between two reads, in the middle of a snapshot, or stopped. */
  datatype Round = Waiting(last: seq<Request>) | Offering(snapshot: seq<Request>, next: nat) | Ended

  /** What a worker is doing with the request it took last. */
  datatype Job =
    | Idle
    | Taken(req: Request)
    | Verifying(req: Request, found: Opened, ws: seq<Bytes>, next: nat)
    | Dead

  datatype NodeState = NodeState(watch: Watch<Request>, round: Round, taken: nat, job: Job)

  /** A partial decryption a node has sent, and the request it answers. */
  datatype Sent = Sent(node: nat, req: Request, message: Bytes)

  datatype Sys = Sys(pool: Pool, registry: Registry.Registry, docs: Doc, height: nat, nodes: map<nat, NodeState>,
      released: seq<Sent>)

  datatype Step =
    | PoolMessage(message: RequestPool.Message)
    | RegistryMessage(entry: Registry.Message)
    | WriteDoc(key: string, value: Bytes)
    | NewBlock
    | StartNode(node: nat)
    | ReadPool(node: nat)
    | ReadFails(node: nat)
    | OfferNext(node: nat)
    | TakeNext(node: nat)
    | OpenRequest(node: nat)
    | VerifyNext(node: nat)
    | FetchAndSend(node: nat, connected: bool, survives: bool)

  function Initial(workers: seq<AccountId>): Sys {
    Sys(New(workers), Registry.EMPTY, map[], 0, map[], [])
  }

  const NEWBORN := NodeState(Watch({}, []), Waiting([]), 0, Idle)

  /** The next request of a snapshot is offered to the channel, whose receiver is gone once
      the worker has panicked. */
  function OfferStep(id: Request -> Bytes, n: NodeState): NodeState {
    if !n.round.Offering? then n
    else if n.round.next >= |n.round.snapshot| then n.(round := Waiting(n.round.snapshot))
    else
      var (w, ok) := Offer(id, n.watch, n.round.snapshot[n.round.next], !n.job.Dead?);
      n.(watch := w, round := if ok then n.round.(next := n.round.next + 1) else Ended)
  }

  function OpenStep(g: Setting, s: Sys, n: NodeState): NodeState {
    if !n.job.Taken? then n
    else match g.open(s.registry, n.job.req)
      case None => n.(job := Dead)
      case Some((o, ws)) => n.(job := if |ws| == |o.intents| then Verifying(n.job.req, o, ws, 0) else Dead)
  }

  function VerifyStep(g: Setting, s: Sys, n: NodeState): NodeState {
    if !n.job.Verifying? || n.job.next >= |n.job.ws| || |n.job.ws| != |n.job.found.intents| then n
    else match Refusal(g.gadgets, s.height, n.job.found.intents[n.job.next], n.job.ws[n.job.next])
      case None => n.(job := n.job.(next := n.job.next + 1))
      case Some(Panicked) => n.(job := Dead)
      case Some(_) => n.(job := Idle)
  }

  function ReadStep(g: Setting, s: Sys, n: NodeState): NodeState {
    if !n.round.Waiting? then n
    else match g.fetch(s.pool)
      case None => n.(round := Ended)
      case Some(snapshot) => n.(round := Offering(snapshot, 0))
  }

  function TakeStep(n: NodeState): NodeState {
    if n.job.Idle? && n.taken < |n.watch.sent| then n.(taken := n.taken + 1, job := Taken(n.watch.sent[n.taken])) else n
  }

  /** Every intent has accepted: fetch, and send if the requester can be reached. Reporting
      the delivery may kill the worker. */
  function SendStep(g: Setting, s: Sys, i: nat, n: NodeState, connected: bool, survives: bool): (NodeState, seq<Sent>) {
    if !n.job.Verifying? || n.job.next < |n.job.ws| then (n, [])
    else match g.finish(s.docs, i, n.job.req, n.job.found.cid)
      case Panic => (n.(job := Dead), [])
      case Nothing => (n.(job := Idle), [])
      case Release(message) =>
        (n.(job := if connected && !survives then Dead else Idle), if connected then [Sent(i, n.job.req, message)]
            else [])
  }

  /** What a step does to the node it belongs to, and what that node sends. */
  function NodeStep(g: Setting, s: Sys, i: nat, n: NodeState, step: Step): (NodeState, seq<Sent>) {
    match step
    case ReadPool(_) => (ReadStep(g, s, n), [])
    case ReadFails(_) => (if n.round.Waiting? then n.(round := Ended) else n, [])
    case OfferNext(_) => (OfferStep(g.id, n), [])
    case TakeNext(_) => (TakeStep(n), [])
    case OpenRequest(_) => (OpenStep(g, s, n), [])
    case VerifyNext(_) => (VerifyStep(g, s, n), [])
    case FetchAndSend(_, connected, survives) => SendStep(g, s, i, n, connected, survives)
    case _ => (n, [])
  }

  predicate OfNode(step: Step) {
    step.ReadPool? || step.ReadFails? || step.OfferNext? || step.TakeNext? || step.OpenRequest? || step.VerifyNext? ||
        step.FetchAndSend?
  }

  function Apply(g: Setting, s: Sys, step: Step): Sys {
    if OfNode(step) then
      if step.node !in s.nodes then s
      else
        var (n, sent) := NodeStep(g, s, step.node, s.nodes[step.node], step);
        s.(nodes := s.nodes[step.node := n], released := s.released + sent)
    else match step
      case PoolMessage(m) => s.(pool := RequestPool.Step(g.hash, g.threshold, s.pool, m).0)
      case RegistryMessage(m) => s.(registry := Registry.Step(s.registry, m).0)
      case WriteDoc(key, value) => s.(docs := s.docs[key := value])
      case NewBlock => s.(height := s.height + 1)
      case StartNode(i) => if i in s.nodes then s else s.(nodes := s.nodes[i := NEWBORN])
      case _ => s
  }

  // ---- The worker's steps, taken together ----

  /** A node's verification steps from here on, gadget k running at height heights(k). */
  function VerifyRun(g: Setting, s: Sys, heights: nat -> nat, n: NodeState): NodeState
    decreases if n.job.Verifying? then |n.job.ws| - n.job.next else 0
  {
    if !n.job.Verifying? || n.job.next >= |n.job.ws| || |n.job.ws| != |n.job.found.intents| then n
    else VerifyRun(g, s, heights, VerifyStep(g, s.(height := heights(n.job.next)), n))
  }

  lemma {:induction false} VerifyRunAgrees(g: Setting, s: Sys, heights: nat -> nat, n: NodeState)
    requires n.job.Verifying? && n.job.next <= |n.job.ws| == |n.job.found.intents|
    ensures VerifyRun(g, s, heights, n) ==
            match VerifyFrom(g.gadgets, heights, n.job.found.intents, n.job.ws, n.job.next)
            case Done(_) => n.(job := n.job.(next := |n.job.ws|))
            case Failed(_) => n.(job := Idle)
            case Panicked => n.(job := Dead)
    decreases |n.job.ws| - n.job.next
  {
    if n.job.next < |n.job.ws| {
      var m := VerifyStep(g, s.(height := heights(n.job.next)), n);
      if m.job.Verifying? { VerifyRunAgrees(g, s, heights, m); }
    }
  }

  /** The verdict on a request in a setting, everything read at once. */
  function Conclude(g: Setting, s: Sys, heights: nat -> nat, p: nat, req: Request): Verdict {
    match g.open(s.registry, req)
    case None => Panic
    case Some((o, ws)) =>
      if |ws| != |o.intents| then Panic
      else match VerifyFrom(g.gadgets, heights, o.intents, ws, 0)
        case Done(_) => g.finish(s.docs, p, req, o.cid)
        case Failed(_) => Nothing
        case Panicked => Panic
  }

  lemma StepsConclude(g: Setting, s: Sys, heights: nat -> nat, p: nat, n: NodeState)
    requires n.job.Taken?
    ensures var (m, sent) := SendStep(g, s, p, VerifyRun(g, s, heights, OpenStep(g, s, n)), true, true);
            match Conclude(g, s, heights, p, n.job.req)
            case Release(message) => m == n.(job := Idle) && sent == [Sent(p, n.job.req, message)]
            case Nothing => m == n.(job := Idle) && sent == []
            case Panic => m == n.(job := Dead) && sent == []
  {
    var m := OpenStep(g, s, n);
    if m.job.Verifying? { VerifyRunAgrees(g, s, heights, m); }
  }

  lemma ProcessConcludes(env: Env, r: Registry.Registry, heights: nat -> nat, docs: Doc, p: nat, req: Request)
    ensures Process(env, r, heights, docs, p, req) ==
            match OpenList(env, r, req)
            case None => Panic
            case Some((o, ws)) =>
              if |ws| != |o.intents| then Panic
              else match VerifyFrom(env.gadgets, heights, o.intents, ws, 0)
                case Done(_) => Finish(env, docs, p, req, o.cid)
                case Failed(_) => Nothing
                case Panicked => Panic
  {
    match OpenList(env, r, req)
    case Some((o, ws)) => if |ws| == |o.intents| { VerifyFromExact(env.gadgets, heights, o.intents, ws, 0); }
    case None =>
  }

  /** Opening, verifying and sending step by step, nothing else happening meanwhile, does
      what the worker's own procedure does. */
  lemma StepsAreProcess(hash: Bytes -> Bytes, threshold: nat, sha256: Bytes -> Bytes32, env: Env, s: Sys,
                        heights: nat -> nat, p: nat, n: NodeState)
    requires n.job.Taken?
    ensures var g := Deployed(hash, threshold, sha256, env);
            var (m, sent) := SendStep(g, s, p, VerifyRun(g, s, heights, OpenStep(g, s, n)), true, true);
            match Process(env, s.registry, heights, s.docs, p, n.job.req)
            case Release(message) => m == n.(job := Idle) && sent == [Sent(p, n.job.req, message)]
            case Nothing => m == n.(job := Idle) && sent == []
            case Panic => m == n.(job := Dead) && sent == []
  {
    StepsConclude(Deployed(hash, threshold, sha256, env), s, heights, p, n);
    ProcessConcludes(env, s.registry, heights, s.docs, p, n.job.req);
  }

  // ---- The worker's steps, among all others ----

  function ExecFrom(g: Setting, s: Sys, steps: seq<Step>): Sys {
    if steps == [] then s else Apply(g, ExecFrom(g, s, steps[..|steps| - 1]), steps[|steps| - 1])
  }

  /** What node p has sent, in order. */
  function SentBy(p: nat, released: seq<Sent>): seq<Sent> {
    if released == [] then []
    else
      var r := released[|released| - 1];
      SentBy(p, released[..|released| - 1]) + (if r.node == p then [r] else [])
  }

  lemma {:induction false} SentByConcat(p: nat, released: seq<Sent>, sent: seq<Sent>)
    ensures SentBy(p, released + sent) == SentBy(p, released) + SentBy(p, sent)
  {
    if sent == [] {
      assert released + sent == released;
    } else {
      var n := |sent| - 1;
      SentByConcat(p, released, sent[..n]);
      assert (released + sent)[..|released + sent| - 1] == released + sent[..n];
    }
  }

  /** A request as it is to be dealt with: what opening it yields, and the message for it. */
  datatype Case = Case(req: Request, found: Opened, ws: seq<Bytes>, message: Bytes)

  /** In this state the registry opens the request so, and the document yields that message. */
  ghost predicate Reads(g: Setting, s: Sys, p: nat, k: Case) {
    g.open(s.registry, k.req) == Some((k.found, k.ws)) && g.finish(s.docs, p, k.req, k.found.cid) == Release(k.message)
  }

  /** The gadget of intent i accepts its witness when the chain stands at this height. */
  predicate AcceptsAt(g: Setting, k: Case, i: nat, at: nat)
    requires i < |k.ws| == |k.found.intents|
  {
    Satisfied(g.gadgets, at, k.found.intents[i], k.ws[i])
  }

  ghost predicate AllAccept(g: Setting, k: Case, heights: seq<nat>, n: nat)
    requires n <= |heights| && n <= |k.ws| == |k.found.intents|
  {
    forall i: nat | i < n :: AcceptsAt(g, k, i, heights[i])
  }

  /** Steps at which node p neither takes another request nor fails to reach the requester. */
  predicate Attends(p: nat, step: Step) {
    OfNode(step) && step.node == p ==> !step.TakeNext? && (step.FetchAndSend? ==> step.connected)
  }

  /** Every intent has accepted at the worker's turn for it. */
  ghost predicate CaseAccepted(g: Setting, k: Case, heights: seq<nat>) {
    |heights| == |k.ws| == |k.found.intents| && AllAccept(g, k, heights, |heights|)
  }

  /** The list does not fit the intents, or the intent verified last did not accept. */
  ghost predicate CaseRefused(g: Setting, k: Case, heights: seq<nat>) {
    if |k.ws| != |k.found.intents| then heights == []
    else
      var n := |heights| - 1;
      0 <= n < |k.ws| && AllAccept(g, k, heights, n) && !AcceptsAt(g, k, n, heights[n])
  }

  /** The request is still in hand and unanswered; or every intent has accepted at its turn, and
      it has been answered by this one message; or it has been refused, and by nothing.
      `heights` are those at which its intents were verified, `sent` is what the node has sent,
      and `before` what it had sent when it took the request. */
  ghost predicate JobInHand(g: Setting, p: nat, k: Case, job: Job, heights: seq<nat>, sent: seq<Sent>,
                            before: seq<Sent>) {
    match job
    case Taken(req) => req == k.req && heights == [] && sent == before
    case Verifying(req, found, ws, next) =>
      && req == k.req && found == k.found && ws == k.ws && next == |heights| <= |ws| == |found.intents|
      && AllAccept(g, k, heights, next) && sent == before
    case _ =>
      || (CaseAccepted(g, k, heights) && sent == before + [Sent(p, k.req, k.message)])
      || (CaseRefused(g, k, heights) && sent == before)
  }

  ghost predicate InHand(g: Setting, s: Sys, p: nat, k: Case, heights: seq<nat>, before: seq<Sent>) {
    p in s.nodes && JobInHand(g, p, k, s.nodes[p].job, heights, SentBy(p, s.released), before)
  }

  /** The worker's next step on the request in hand, and how many are left at most. */
  predicate Due(s: Sys, p: nat, step: Step) {
    && p in s.nodes && OfNode(step) && step.node == p
    && match s.nodes[p].job
       case Taken(_) => step.OpenRequest?
       case Verifying(_, _, ws, next) => if next < |ws| then step.VerifyNext? else step.FetchAndSend?
       case _ => false
  }

  function Left(k: Case, job: Job): int {
    match job
    case Taken(_) => |k.ws| + 2
    case Verifying(_, _, _, next) => |k.ws| + 1 - next
    case _ => 0
  }

  function Turns(g: Setting, s: Sys, p: nat, steps: seq<Step>): nat {
    if steps == [] then 0
    else
      var before := steps[..|steps| - 1];
      Turns(g, s, p, before) + (if Due(ExecFrom(g, s, before), p, steps[|steps| - 1]) then 1 else 0)
  }

  /** The heights at which node p verified intents along a run, in order. */
  function TurnHeights(g: Setting, s: Sys, p: nat, steps: seq<Step>): seq<nat> {
    if steps == [] then []
    else
      var before, t := steps[..|steps| - 1], ExecFrom(g, s, steps[..|steps| - 1]);
      TurnHeights(g, s, p, before) + HeightOf(t, p, steps[|steps| - 1])
  }

  function HeightOf(s: Sys, p: nat, step: Step): seq<nat> {
    if Due(s, p, step) && step.VerifyNext? then [s.height] else []
  }

  /** Another node's step, or no node's, leaves node p's worker and its messages alone. */
  lemma OtherStep(g: Setting, s: Sys, p: nat, step: Step)
    requires p in s.nodes && !(OfNode(step) && step.node == p)
    ensures var t := Apply(g, s, step);
            p in t.nodes && t.nodes[p] == s.nodes[p] && SentBy(p, t.released) == SentBy(p, s.released)
  {
    if OfNode(step) && step.node in s.nodes {
      var sent := NodeStep(g, s, step.node, s.nodes[step.node], step).1;
      SentByConcat(p, s.released, sent);
      assert |sent| <= 1 && (sent != [] ==> sent[0].node != p && sent[..0] == []);
    }
  }

  /** What a job in hand becomes at a due step at this height, and what is sent. */
  ghost predicate Proceeds(g: Setting, p: nat, k: Case, at: nat, job: Job, next: Job, sent: seq<Sent>) {
    var ended := next.Idle? || next.Dead?;
    match job
    case Taken(req) => req == k.req ==>
      sent == [] && if |k.ws| == |k.found.intents| then next == Verifying(k.req, k.found, k.ws, 0) else ended
    case Verifying(req, found, ws, n) =>
      req == k.req && found == k.found && ws == k.ws && n <= |ws| == |found.intents| ==>
        if n == |ws| then sent == [Sent(p, k.req, k.message)] && ended
        else sent == [] && if AcceptsAt(g, k, n, at) then next == job.(next := n + 1) else ended
    case _ => next == job && sent == []
  }

  lemma ProceedsInHand(g: Setting, p: nat, k: Case, at: nat, job: Job, next: Job, sent: seq<Sent>,
                       heights: seq<nat>, all: seq<Sent>, before: seq<Sent>)
    requires JobInHand(g, p, k, job, heights, all, before) && (job.Taken? || job.Verifying?)
    requires Proceeds(g, p, k, at, job, next, sent)
    ensures var turn := if job.Verifying? && job.next < |job.ws| then [at] else [];
            JobInHand(g, p, k, next, heights + turn, all + SentBy(p, sent), before) && Left(k, next) < Left(k, job)
  {
    assert sent == [] || (|sent| == 1 && sent[..0] == []);
    assert all + [] == all && heights + [] == heights;
  }

  lemma DueProceeds(g: Setting, s: Sys, p: nat, k: Case, step: Step)
    requires p in s.nodes && Reads(g, s, p, k) && Attends(p, step) && Due(s, p, step)
    ensures var (m, sent) := NodeStep(g, s, p, s.nodes[p], step);
            Proceeds(g, p, k, s.height, s.nodes[p].job, m.job, sent)
  {
  }

  lemma NotDueStays(g: Setting, s: Sys, p: nat, step: Step)
    requires p in s.nodes && OfNode(step) && step.node == p && Attends(p, step) && !Due(s, p, step)
    requires s.nodes[p].job.Verifying? ==> |s.nodes[p].job.ws| == |s.nodes[p].job.found.intents|
    ensures var (m, sent) := NodeStep(g, s, p, s.nodes[p], step); m.job == s.nodes[p].job && sent == []
  {
  }

  lemma OwnStep(g: Setting, s: Sys, p: nat, step: Step)
    requires p in s.nodes && OfNode(step) && step.node == p
    ensures var (m, sent) := NodeStep(g, s, p, s.nodes[p], step);
            var t := Apply(g, s, step);
            p in t.nodes && t.nodes[p] == m && SentBy(p, t.released) == SentBy(p, s.released) + SentBy(p, sent)
  {
    SentByConcat(p, s.released, NodeStep(g, s, p, s.nodes[p], step).1);
  }

  /** Every step keeps the request in hand or deals with it, and a due step brings it closer. */
  lemma StepInHand(g: Setting, s: Sys, p: nat, k: Case, heights: seq<nat>, before: seq<Sent>, step: Step)
    requires InHand(g, s, p, k, heights, before) && Reads(g, s, p, k) && Attends(p, step)
    ensures var t := Apply(g, s, step);
            && InHand(g, t, p, k, heights + HeightOf(s, p, step), before)
            && Left(k, t.nodes[p].job) + (if Due(s, p, step) then 1 else 0) <= Left(k, s.nodes[p].job)
  {
    assert heights + [] == heights;
    if !(OfNode(step) && step.node == p) {
      OtherStep(g, s, p, step);
    } else {
      OwnStep(g, s, p, step);
      var (m, sent) := NodeStep(g, s, p, s.nodes[p], step);
      if Due(s, p, step) {
        DueProceeds(g, s, p, k, step);
        ProceedsInHand(g, p, k, s.height, s.nodes[p].job, m.job, sent, heights, SentBy(p, s.released), before);
      } else {
        NotDueStays(g, s, p, step);
        assert SentBy(p, s.released) + [] == SentBy(p, s.released);
      }
    }
  }

  /** Over any run of the network from a state in which node p has just taken the request: as
      long as reading finds the same, the request is in hand and unanswered, or has been dealt
      with once and for all - answered exactly if each intent accepted its witness at the height
      of the worker's own turn for it - and after |ws| + 2 turns it has been dealt with. */
  lemma {:induction false} RunInHand(g: Setting, s: Sys, p: nat, k: Case, steps: seq<Step>)
    requires p in s.nodes && s.nodes[p].job == Taken(k.req)
    requires forall i | 0 <= i < |steps| :: Attends(p, steps[i]) && Reads(g, ExecFrom(g, s, steps[..i]), p, k)
    ensures InHand(g, ExecFrom(g, s, steps), p, k, TurnHeights(g, s, p, steps), SentBy(p, s.released))
    ensures Left(k, ExecFrom(g, s, steps).nodes[p].job) + Turns(g, s, p, steps) <= |k.ws| + 2
  {
    if steps != [] {
      var n := |steps| - 1;
      var before := steps[..n];
      forall i | 0 <= i < |before| ensures Attends(p, before[i]) && Reads(g, ExecFrom(g, s, before[..i]), p, k) {
        assert before[..i] == steps[..i];
        assert Attends(p, steps[i]);
      }
      RunInHand(g, s, p, k, before);
      assert Attends(p, steps[n]) && Reads(g, ExecFrom(g, s, steps[..n]), p, k);
      StepInHand(g, ExecFrom(g, s, before), p, k, TurnHeights(g, s, p, before), SentBy(p, s.released), steps[n]);
    }
  }

  function Exec(g: Setting, workers: seq<AccountId>, steps: seq<Step>): Sys {
    if steps == [] then Initial(workers)
    else Apply(g, Exec(g, workers, steps[..|steps| - 1]), steps[|steps| - 1])
  }

  /** The network after the first i steps of a run. */
  function At(g: Setting, workers: seq<AccountId>, steps: seq<Step>, i: nat): Sys
    requires i <= |steps|
  {
    Exec(g, workers, steps[..i])
  }

  lemma AtExtend(g: Setting, workers: seq<AccountId>, steps: seq<Step>, i: nat)
    requires steps != [] && i < |steps|
    ensures At(g, workers, steps, i) == At(g, workers, steps[..|steps| - 1], i)
    ensures At(g, workers, steps, |steps|) == Exec(g, workers, steps)
    ensures At(g, workers, steps, |steps| - 1) == Exec(g, workers, steps[..|steps| - 1])
  {
    assert steps[..|steps| - 1][..i] == steps[..i];
    assert steps[..|steps|] == steps;
  }

  /** Reads of the pool only ever get longer along a run. */
  lemma PoolOnlyGrows(g: Setting, s: Sys, step: Step)
    requires RequestPool.Inv(g.hash, g.threshold, s.pool) && 1 <= g.threshold <= U32_MAX
    ensures RequestPool.Inv(g.hash, g.threshold, Apply(g, s, step).pool)
    ensures ReadAll(s.pool) <= ReadAll(Apply(g, s, step).pool)
  {
    if step.PoolMessage? {
      StepReads(g.hash, g.threshold, s.pool, step.message);
    } else {
      PoolUntouched(g, s, step);
    }
  }

  lemma PoolUntouched(g: Setting, s: Sys, step: Step)
    requires !step.PoolMessage?
    ensures Apply(g, s, step).pool == s.pool
  {
  }

  lemma StoresUntouched(g: Setting, s: Sys, step: Step)
    requires !step.RegistryMessage? && !step.WriteDoc?
    ensures Apply(g, s, step).registry == s.registry && Apply(g, s, step).docs == s.docs
  {
  }

  /** Where the nodes after a step come from. */
  lemma NodeAfter(g: Setting, s: Sys, step: Step, p: nat)
    requires p in Apply(g, s, step).nodes
    ensures Apply(g, s, step).nodes[p] ==
            if p !in s.nodes then NodeState(Watch({}, []), Waiting([]), 0, Idle)
            else if OfNode(step) && step.node == p then NodeStep(g, s, p, s.nodes[p], step).0 else s.nodes[p]
  {
  }

  lemma {:induction false} PoolReachable(g: Setting, workers: seq<AccountId>, steps: seq<Step>)
    requires 1 <= g.threshold <= U32_MAX
    ensures RequestPool.Inv(g.hash, g.threshold, Exec(g, workers, steps).pool)
  {
    if steps == [] {
      RequestPool.Reachable(g.hash, g.threshold, workers, []);
    } else {
      PoolReachable(g, workers, steps[..|steps| - 1]);
      PoolOnlyGrows(g, Exec(g, workers, steps[..|steps| - 1]), steps[|steps| - 1]);
    }
  }

  // ---- The contracts, the document and the chain within a run ----

  /** The messages to the pool contract in a run, in order. */
  function PoolMessages(steps: seq<Step>): seq<RequestPool.Message> {
    if steps == [] then []
    else
      var last := steps[|steps| - 1];
      PoolMessages(steps[..|steps| - 1]) + (if last.PoolMessage? then [last.message] else [])
  }

  function RegistryMessages(steps: seq<Step>): seq<Registry.Message> {
    if steps == [] then []
    else
      var last := steps[|steps| - 1];
      RegistryMessages(steps[..|steps| - 1]) + (if last.RegistryMessage? then [last.entry] else [])
  }

  /** Step k wrote this value, and no later step wrote to the key. */
  ghost predicate LastWrite(steps: seq<Step>, k: nat, key: string, value: Bytes) {
    && k < |steps| && steps[k] == WriteDoc(key, value)
    && forall j | k < j < |steps| && steps[j].WriteDoc? :: steps[j].key != key
  }

  function Blocks(steps: seq<Step>): nat {
    if steps == [] then 0
    else Blocks(steps[..|steps| - 1]) + (if steps[|steps| - 1].NewBlock? then 1 else 0)
  }

  lemma OwnRuns(g: Setting, workers: seq<AccountId>, before: seq<Step>, step: Step)
    requires Exec(g, workers, before).pool == RequestPool.Run(g.hash, g.threshold, New(workers), PoolMessages(before))
    requires Exec(g, workers, before).registry == Registry.Run(Registry.EMPTY, RegistryMessages(before)).0
    ensures var s := Apply(g, Exec(g, workers, before), step);
            && s.pool == RequestPool.Run(g.hash, g.threshold, New(workers), PoolMessages(before + [step]))
            && s.registry == Registry.Run(Registry.EMPTY, RegistryMessages(before + [step])).0
  {
    hide RequestPool.Step, Registry.Step;
    assert (before + [step])[..|before|] == before;
    var ms, rs := PoolMessages(before + [step]), RegistryMessages(before + [step]);
    assert ms == PoolMessages(before) + (if step.PoolMessage? then [step.message] else []);
    assert rs == RegistryMessages(before) + (if step.RegistryMessage? then [step.entry] else []);
    if step.PoolMessage? { assert ms[..|ms| - 1] == PoolMessages(before); } else { assert ms == PoolMessages(before); }
    if step.RegistryMessage? {
      assert rs[..|rs| - 1] == RegistryMessages(before);
    } else {
      assert rs == RegistryMessages(before);
    }
  }

  lemma LastWriteNext(before: seq<Step>, step: Step, key: string, value: Bytes)
    ensures (exists k: nat :: LastWrite(before + [step], k, key, value)) <==>
            if step.WriteDoc? && step.key == key then step.value == value
            else exists k: nat :: LastWrite(before, k, key, value)
  {
    var all, n := before + [step], |before|;
    assert all[n] == step && forall j | 0 <= j < n :: all[j] == before[j];
    if step == WriteDoc(key, value) { assert LastWrite(all, n, key, value); }
    if k: nat :| LastWrite(all, k, key, value) {
      if k < n { assert LastWrite(before, k, key, value); }
    }
    if !(step.WriteDoc? && step.key == key) {
      if k: nat :| LastWrite(before, k, key, value) { assert LastWrite(all, k, key, value); }
    }
  }

  /** Whatever the nodes do: the pool and the registry are where their own messages alone, in
      order, would have brought them, a key of the document holds what was last written to it,
      and the chain has moved on by one with each block. */
  lemma {:induction false} OwnMessagesOnly(g: Setting, workers: seq<AccountId>, steps: seq<Step>, key: string,
                                           value: Bytes)
    ensures var s := Exec(g, workers, steps);
            && s.pool == RequestPool.Run(g.hash, g.threshold, New(workers), PoolMessages(steps))
            && s.registry == Registry.Run(Registry.EMPTY, RegistryMessages(steps)).0
            && (key in s.docs && s.docs[key] == value <==> exists k: nat :: LastWrite(steps, k, key, value))
            && s.height == Blocks(steps)
  {
    if steps != [] {
      var before, step := steps[..|steps| - 1], steps[|steps| - 1];
      OwnMessagesOnly(g, workers, before, key, value);
      assert before + [step] == steps;
      OwnRuns(g, workers, before, step);
      LastWriteNext(before, step, key, value);
    }
  }

  // ---- Nothing comes from outside the pool ----

  /** A read yields the pool's own list, and fails exactly when that cannot be encoded. */
  ghost predicate ReadsTruly(g: Setting) {
    forall p: Pool :: g.fetch(p) == if g.fits(ReadAll(p)) then Some(ReadAll(p)) else None
  }

  lemma DeployedReadsTruly(hash: Bytes -> Bytes, threshold: nat, sha256: Bytes -> Bytes32, env: Env)
    ensures ReadsTruly(Deployed(hash, threshold, sha256, env))
  {
    forall p: Pool ensures FetchRequests(p) == if RequestList().ok(ReadAll(p)) then Some(ReadAll(p)) else None {
      FetchFaithful(p);
    }
  }

  predicate Busy(n: NodeState) { n.job.Taken? || n.job.Verifying? }

  predicate HandsKnown(s: Sys, n: NodeState) { Busy(n) ==> n.job.req in ReadAll(s.pool) }

  /** Everything a node has in hand comes from the pool. */
  ghost predicate FromPool(all: set<Request>, n: NodeState) {
    && (forall r | r in n.watch.sent :: r in all)
    && (n.round.Offering? ==> forall r | r in n.round.snapshot :: r in all)
    && (Busy(n) ==> n.job.req in all)
  }

  lemma NodeFromPool(g: Setting, s: Sys, p: nat, n: NodeState, step: Step, all: set<Request>)
    requires ReadsTruly(g) && OfNode(step) && FromPool(all, n) && Elements(ReadAll(s.pool)) <= all
    ensures FromPool(all, NodeStep(g, s, p, n, step).0)
  {
    match step
    case ReadPool(_) => ReadFromPool(g, s, n, all);
    case _ =>
  }

  lemma ReadFromPool(g: Setting, s: Sys, n: NodeState, all: set<Request>)
    requires ReadsTruly(g) && FromPool(all, n) && Elements(ReadAll(s.pool)) <= all
    ensures FromPool(all, ReadStep(g, s, n))
  {
    assert forall r | r in ReadAll(s.pool) :: r in Elements(ReadAll(s.pool));
  }

  ghost predicate AllFromPool(s: Sys) { forall p | p in s.nodes :: FromPool(Elements(ReadAll(s.pool)), s.nodes[p]) }

  lemma StepFromPool(g: Setting, s: Sys, step: Step)
    requires ReadsTruly(g) && AllFromPool(s) && ReadAll(s.pool) <= ReadAll(Apply(g, s, step).pool)
    ensures AllFromPool(Apply(g, s, step))
  {
    var t := Apply(g, s, step);
    var more := Elements(ReadAll(t.pool));
    assert Elements(ReadAll(s.pool)) <= more;
    forall p | p in t.nodes ensures FromPool(more, t.nodes[p]) {
      NodeAfter(g, s, step, p);
      if p in s.nodes {
        assert FromPool(Elements(ReadAll(s.pool)), s.nodes[p]);
        if OfNode(step) && p == step.node { NodeFromPool(g, s, p, s.nodes[p], step, more); }
      }
    }
  }

  lemma {:induction false} RunFromPool(g: Setting, workers: seq<AccountId>, steps: seq<Step>)
    requires ReadsTruly(g) && 1 <= g.threshold <= U32_MAX
    ensures AllFromPool(Exec(g, workers, steps))
  {
    if steps != [] {
      var s := Exec(g, workers, steps[..|steps| - 1]);
      RunFromPool(g, workers, steps[..|steps| - 1]);
      PoolReachable(g, workers, steps[..|steps| - 1]);
      PoolOnlyGrows(g, s, steps[|steps| - 1]);
      StepFromPool(g, s, steps[|steps| - 1]);
    }
  }

  // ---- Release safety ----

  /** At step i the request was in the pool, the registry gave this for its filename, and its
      witness decoded. */
  ghost predicate OpenedAt(g: Setting, workers: seq<AccountId>, steps: seq<Step>, i: nat, req: Request, o: Opened,
                           ws: seq<Bytes>) {
    && i <= |steps| && req in ReadAll(At(g, workers, steps, i).pool)
    && g.open(At(g, workers, steps, i).registry, req) == Some((o, ws))
    && |ws| == |o.intents|
  }

  /** Between steps i and j the intent's gadget accepted the witness. */
  ghost predicate AcceptedIn(g: Setting, workers: seq<AccountId>, steps: seq<Step>, i: nat, j: nat, intent: Intent,
                             w: Bytes) {
    exists m :: i <= m <= j && m <= |steps| && Satisfied(g.gadgets, At(g, workers, steps, m).height, intent, w)
  }

  ghost predicate AcceptedUpTo(g: Setting, workers: seq<AccountId>, steps: seq<Step>, i: nat, j: nat, o: Opened,
                               ws: seq<Bytes>, n: nat)
    requires |ws| == |o.intents|
  {
    n <= |ws| && forall k: nat | k < n :: AcceptedIn(g, workers, steps, i, j, o.intents[k], ws[k])
  }

  ghost predicate JobFrom(g: Setting, workers: seq<AccountId>, steps: seq<Step>, i: nat, job: Job)
    requires job.Verifying?
  {
    && OpenedAt(g, workers, steps, i, job.req, job.found, job.ws)
    && AcceptedUpTo(g, workers, steps, i, |steps|, job.found, job.ws, job.next)
  }

  /** The message was sent at step j for a request opened at step i: one registry read, all
      intents accepted in between, and the ciphertext is the one under that CID at step j. */
  ghost predicate JustifiedAt(g: Setting, workers: seq<AccountId>, steps: seq<Step>, r: Sent, i: nat, j: nat,
                              o: Opened, ws: seq<Bytes>) {
    && i <= j <= |steps|
    && OpenedAt(g, workers, steps, i, r.req, o, ws)
    && AcceptedUpTo(g, workers, steps, i, j, o, ws, |ws|)
    && g.finish(At(g, workers, steps, j).docs, r.node, r.req, o.cid) == Release(r.message)
  }

  ghost predicate Justified(g: Setting, workers: seq<AccountId>, steps: seq<Step>, r: Sent) {
    exists i, j, o, ws :: JustifiedAt(g, workers, steps, r, i, j, o, ws)
  }

  ghost predicate HasOrigin(g: Setting, workers: seq<AccountId>, steps: seq<Step>, job: Job) {
    job.Verifying? ==> exists i :: JobFrom(g, workers, steps, i, job)
  }

  ghost predicate JobsOk(g: Setting, workers: seq<AccountId>, steps: seq<Step>, s: Sys) {
    forall n | n in s.nodes :: HasOrigin(g, workers, steps, s.nodes[n].job)
  }

  ghost predicate ReleasesOk(g: Setting, workers: seq<AccountId>, steps: seq<Step>, s: Sys) {
    forall k | 0 <= k < |s.released| :: Justified(g, workers, steps, s.released[k])
  }

  lemma OpenedExtend(g: Setting, workers: seq<AccountId>, steps: seq<Step>, i: nat, req: Request, o: Opened,
                     ws: seq<Bytes>)
    requires steps != [] && OpenedAt(g, workers, steps[..|steps| - 1], i, req, o, ws)
    ensures OpenedAt(g, workers, steps, i, req, o, ws)
  {
    AtExtend(g, workers, steps, i);
  }

  lemma AcceptedExtend(g: Setting, workers: seq<AccountId>, steps: seq<Step>, i: nat, j: nat, intent: Intent, w: Bytes)
    requires steps != [] && j <= |steps| - 1 && AcceptedIn(g, workers, steps[..|steps| - 1], i, j, intent, w)
    ensures AcceptedIn(g, workers, steps, i, j, intent, w) && AcceptedIn(g, workers, steps, i, |steps|, intent, w)
  {
    var m :| i <= m <= j && m <= |steps| - 1
      && Satisfied(g.gadgets, At(g, workers, steps[..|steps| - 1], m).height, intent, w);
    AtExtend(g, workers, steps, m);
  }

  lemma UpToExtend(g: Setting, workers: seq<AccountId>, steps: seq<Step>, i: nat, j: nat, o: Opened, ws: seq<Bytes>,
                   n: nat)
    requires steps != [] && j <= |steps| - 1 && |ws| == |o.intents|
    requires AcceptedUpTo(g, workers, steps[..|steps| - 1], i, j, o, ws, n)
    ensures AcceptedUpTo(g, workers, steps, i, j, o, ws, n) && AcceptedUpTo(g, workers, steps, i, |steps|, o, ws, n)
  {
    forall k: nat | k < n
      ensures AcceptedIn(g, workers, steps, i, j, o.intents[k], ws[k])
      ensures AcceptedIn(g, workers, steps, i, |steps|, o.intents[k], ws[k])
    {
      AcceptedExtend(g, workers, steps, i, j, o.intents[k], ws[k]);
    }
  }

  lemma JobExtend(g: Setting, workers: seq<AccountId>, steps: seq<Step>, i: nat, job: Job)
    requires steps != [] && job.Verifying? && JobFrom(g, workers, steps[..|steps| - 1], i, job)
    ensures JobFrom(g, workers, steps, i, job)
  {
    OpenedExtend(g, workers, steps, i, job.req, job.found, job.ws);
    UpToExtend(g, workers, steps, i, |steps| - 1, job.found, job.ws, job.next);
  }

  lemma JustifiedExtend(g: Setting, workers: seq<AccountId>, steps: seq<Step>, r: Sent)
    requires steps != [] && Justified(g, workers, steps[..|steps| - 1], r)
    ensures Justified(g, workers, steps, r)
  {
    var i, j, o, ws :| JustifiedAt(g, workers, steps[..|steps| - 1], r, i, j, o, ws);
    OpenedExtend(g, workers, steps, i, r.req, o, ws);
    UpToExtend(g, workers, steps, i, j, o, ws, |ws|);
    AtExtend(g, workers, steps, j);
    assert JustifiedAt(g, workers, steps, r, i, j, o, ws);
  }

  /** A request just opened starts a justified job. */
  lemma OpenKeeps(g: Setting, workers: seq<AccountId>, steps: seq<Step>, n: NodeState)
    requires steps != []
    requires var s := Exec(g, workers, steps[..|steps| - 1]);
             HandsKnown(s, n) && OpenStep(g, s, n).job.Verifying? && !n.job.Verifying?
    ensures var s := Exec(g, workers, steps[..|steps| - 1]); JobFrom(g, workers, steps, |steps| - 1,
        OpenStep(g, s, n).job)
  {
    AtExtend(g, workers, steps, |steps| - 1);
  }

  /** One more intent accepted, now. */
  lemma UpToNext(g: Setting, workers: seq<AccountId>, steps: seq<Step>, i: nat, m: nat, o: Opened, ws: seq<Bytes>,
                 n: nat)
    requires |ws| == |o.intents| && n < |ws| && i <= m <= |steps|
    requires AcceptedUpTo(g, workers, steps, i, |steps|, o, ws, n)
    requires Satisfied(g.gadgets, At(g, workers, steps, m).height, o.intents[n], ws[n])
    ensures AcceptedUpTo(g, workers, steps, i, |steps|, o, ws, n + 1)
  {
    assert AcceptedIn(g, workers, steps, i, |steps|, o.intents[n], ws[n]);
  }

  /** A message is sent only at the end of a justified job. */
  lemma SendKeeps(g: Setting, workers: seq<AccountId>, steps: seq<Step>, i: nat, job: Job, r: Sent)
    requires steps != [] && job.Verifying? && JobFrom(g, workers, steps[..|steps| - 1], i, job) && job.next == |job.ws|
    requires r.req == job.req
    requires g.finish(Exec(g, workers, steps[..|steps| - 1]).docs, r.node, r.req, job.found.cid) == Release(r.message)
    ensures Justified(g, workers, steps, r)
  {
    var j := |steps| - 1;
    OpenedExtend(g, workers, steps, i, job.req, job.found, job.ws);
    UpToExtend(g, workers, steps, i, j, job.found, job.ws, |job.ws|);
    AtExtend(g, workers, steps, j);
    assert JustifiedAt(g, workers, steps, r, i, j, job.found, job.ws);
  }

  /** Where a verifying job comes from: it was there, it was just opened, or it has moved on
      by one intent that has just accepted. */
  ghost predicate Moved(g: Setting, s: Sys, n: NodeState, m: NodeState) {
    m.job == n.job || m == OpenStep(g, s, n) || NextAccepted(g, s.height, n.job, m.job)
  }

  ghost predicate NextAccepted(g: Setting, height: nat, job: Job, next: Job) {
    && job.Verifying? && job.next < |job.ws| == |job.found.intents| && next == job.(next := job.next + 1)
    && Satisfied(g.gadgets, height, job.found.intents[job.next], job.ws[job.next])
  }

  /** When a message is sent: every intent has accepted. */
  ghost predicate Sends(g: Setting, docs: Doc, p: nat, job: Job, r: Sent) {
    && job.Verifying? && job.next >= |job.ws| && r.node == p && r.req == job.req
    && g.finish(docs, p, job.req, job.found.cid) == Release(r.message)
  }

  lemma NodeStepShape(g: Setting, s: Sys, p: nat, n: NodeState, step: Step)
    requires OfNode(step) && (n.job.Verifying? ==> |n.job.ws| == |n.job.found.intents|)
    ensures var (m, sent) := NodeStep(g, s, p, n, step);
            && (m.job.Verifying? ==> Moved(g, s, n, m))
            && (sent != [] ==> |sent| == 1 && Sends(g, s.docs, p, n.job, sent[0]) && !Busy(m))
  {
  }

  /** A job stays justified when one more intent has accepted. */
  lemma NextKeeps(g: Setting, workers: seq<AccountId>, steps: seq<Step>, i: nat, job: Job, next: Job)
    requires steps != [] && job.Verifying? && JobFrom(g, workers, steps, i, job) && i <= |steps| - 1
    requires NextAccepted(g, Exec(g, workers, steps[..|steps| - 1]).height, job, next)
    ensures JobFrom(g, workers, steps, i, next)
  {
    AtExtend(g, workers, steps, |steps| - 1);
    UpToNext(g, workers, steps, i, |steps| - 1, job.found, job.ws, job.next);
  }

  lemma OldJob(g: Setting, workers: seq<AccountId>, steps: seq<Step>, job: Job) returns (i: nat)
    requires steps != [] && job.Verifying? && HasOrigin(g, workers, steps[..|steps| - 1], job)
    ensures i <= |steps| - 1 && JobFrom(g, workers, steps[..|steps| - 1], i, job) && JobFrom(g, workers, steps, i, job)
  {
    i :| JobFrom(g, workers, steps[..|steps| - 1], i, job);
    JobExtend(g, workers, steps, i, job);
  }

  /** One node's step keeps that node's job justified. */
  lemma MovedKeeps(g: Setting, workers: seq<AccountId>, steps: seq<Step>, n: NodeState, m: NodeState)
    requires steps != [] && HasOrigin(g, workers, steps[..|steps| - 1], n.job)
    requires var s := Exec(g, workers, steps[..|steps| - 1]); HandsKnown(s, n) && m.job.Verifying? && Moved(g, s, n, m)
    ensures HasOrigin(g, workers, steps, m.job)
  {
    if m.job == n.job {
      var i := OldJob(g, workers, steps, n.job);
    } else if n.job.Verifying? && m.job.req == n.job.req && m.job.next != n.job.next {
      var i := OldJob(g, workers, steps, n.job);
      NextKeeps(g, workers, steps, i, n.job, m.job);
    } else {
      OpenKeeps(g, workers, steps, n);
    }
  }

  /** What it sends is justified. */
  lemma SentKeeps(g: Setting, workers: seq<AccountId>, steps: seq<Step>, p: nat, job: Job, r: Sent)
    requires steps != [] && HasOrigin(g, workers, steps[..|steps| - 1], job)
    requires Sends(g, Exec(g, workers, steps[..|steps| - 1]).docs, p, job, r)
    ensures Justified(g, workers, steps, r)
  {
    var i := OldJob(g, workers, steps, job);
    SendKeeps(g, workers, steps, i, job, r);
  }

  lemma NodeStepKeeps(g: Setting, workers: seq<AccountId>, steps: seq<Step>, p: nat, n: NodeState, step: Step)
    requires steps != [] && OfNode(step) && HasOrigin(g, workers, steps[..|steps| - 1], n.job)
    requires HandsKnown(Exec(g, workers, steps[..|steps| - 1]), n)
    ensures var (m, sent) := NodeStep(g, Exec(g, workers, steps[..|steps| - 1]), p, n, step);
            HasOrigin(g, workers, steps, m.job) && forall k | 0 <= k < |sent| :: Justified(g, workers, steps, sent[k])
  {
    var s := Exec(g, workers, steps[..|steps| - 1]);
    var (m, sent) := NodeStep(g, s, p, n, step);
    NodeStepShape(g, s, p, n, step);
    if m.job.Verifying? { MovedKeeps(g, workers, steps, n, m); }
    if sent != [] { SentKeeps(g, workers, steps, p, n.job, sent[0]); }
  }

  lemma {:induction false} AllJustified(g: Setting, workers: seq<AccountId>, steps: seq<Step>)
    requires ReadsTruly(g) && 1 <= g.threshold <= U32_MAX
    ensures JobsOk(g, workers, steps, Exec(g, workers, steps)) && ReleasesOk(g, workers, steps, Exec(g, workers, steps))
  {
    if steps != [] {
      var before, step := steps[..|steps| - 1], steps[|steps| - 1];
      var s, t := Exec(g, workers, before), Exec(g, workers, steps);
      AllJustified(g, workers, before);
      RunFromPool(g, workers, before);
      forall k | 0 <= k < |s.released| ensures Justified(g, workers, steps, s.released[k]) {
        JustifiedExtend(g, workers, steps, s.released[k]);
      }
      forall n | n in s.nodes ensures HasOrigin(g, workers, steps, s.nodes[n].job) {
        assert HasOrigin(g, workers, before, s.nodes[n].job);
        if s.nodes[n].job.Verifying? {
          var i := OldJob(g, workers, steps, s.nodes[n].job);
        }
      }
      if OfNode(step) && step.node in s.nodes {
        assert FromPool(Elements(ReadAll(s.pool)), s.nodes[step.node]);
        NodeStepKeeps(g, workers, steps, step.node, s.nodes[step.node], step);
      }
    }
  }

  // ---- Death ----

  /** The step kills the worker of a node in this state: opening fails or the witness list does
      not fit, a gadget panics, the answer cannot be made, or its delivery cannot be reported. */
  ghost predicate Kills(g: Setting, s: Sys, p: nat, n: NodeState, step: Step) {
    match n.job
    case Taken(req) =>
      var found := g.open(s.registry, req);
      step.OpenRequest? && (found.None? || |found.value.1| != |found.value.0.intents|)
    case Verifying(req, found, ws, next) =>
      if next < |ws| then
        step.VerifyNext? && |ws| == |found.intents|
        && EndsWith(g.gadgets, s.height, found.intents[next], ws[next], Panicked)
      else
        step.FetchAndSend?
        && (g.finish(s.docs, p, req, found.cid) == Panic
            || (g.finish(s.docs, p, req, found.cid).Release? && step.connected && !step.survives))
    case _ => false
  }

  /** Step i of a run killed the worker of node p. */
  ghost predicate KilledAt(g: Setting, workers: seq<AccountId>, steps: seq<Step>, p: nat, i: nat) {
    && i < |steps| && OfNode(steps[i]) && steps[i].node == p
    && p in At(g, workers, steps, i).nodes
    && Kills(g, At(g, workers, steps, i), p, At(g, workers, steps, i).nodes[p], steps[i])
  }

  lemma DeathStep(g: Setting, s: Sys, p: nat, n: NodeState, step: Step)
    requires OfNode(step)
    ensures NodeStep(g, s, p, n, step).0.job.Dead? <==> n.job.Dead? || Kills(g, s, p, n, step)
    ensures n.job.Dead? ==> NodeStep(g, s, p, n, step).1 == []
  {
  }

  lemma KilledExtend(g: Setting, workers: seq<AccountId>, steps: seq<Step>, p: nat, i: nat)
    requires steps != [] && i < |steps| - 1
    ensures KilledAt(g, workers, steps, p, i) <==> KilledAt(g, workers, steps[..|steps| - 1], p, i)
  {
    AtExtend(g, workers, steps, i);
  }

  ghost predicate Killed(g: Setting, workers: seq<AccountId>, steps: seq<Step>, p: nat) {
    exists i: nat :: KilledAt(g, workers, steps, p, i)
  }

  lemma KilledLast(g: Setting, workers: seq<AccountId>, steps: seq<Step>, p: nat)
    requires steps != []
    ensures Killed(g, workers, steps, p) <==>
            Killed(g, workers, steps[..|steps| - 1], p) || KilledAt(g, workers, steps, p, |steps| - 1)
  {
    var before := steps[..|steps| - 1];
    if i: nat :| KilledAt(g, workers, steps, p, i) {
      if i < |steps| - 1 { KilledExtend(g, workers, steps, p, i); }
    }
    if i: nat :| KilledAt(g, workers, before, p, i) {
      KilledExtend(g, workers, steps, p, i);
      assert KilledAt(g, workers, steps, p, i);
    }
  }

  /** Over every run: a node's worker is dead exactly when some step of it has killed it. */
  lemma {:induction false} DeadIff(g: Setting, workers: seq<AccountId>, steps: seq<Step>, p: nat)
    ensures var s := Exec(g, workers, steps);
            p in s.nodes && s.nodes[p].job.Dead? <==> Killed(g, workers, steps, p)
  {
    if steps != [] {
      var before, step := steps[..|steps| - 1], steps[|steps| - 1];
      var s := Exec(g, workers, before);
      DeadIff(g, workers, before, p);
      KilledLast(g, workers, steps, p);
      AtExtend(g, workers, steps, |steps| - 1);
      if OfNode(step) && step.node == p && p in s.nodes { DeathStep(g, s, p, s.nodes[p], step); }
      if p in Apply(g, s, step).nodes { NodeAfter(g, s, step, p); }
    }
  }

  /** A dead worker stays dead and sends nothing more, whatever happens. */
  lemma {:induction false} DeadIsSilent(g: Setting, s: Sys, p: nat, steps: seq<Step>)
    requires p in s.nodes && s.nodes[p].job.Dead?
    ensures var t := ExecFrom(g, s, steps);
            p in t.nodes && t.nodes[p].job.Dead? && SentBy(p, t.released) == SentBy(p, s.released)
  {
    if steps != [] {
      var n := |steps| - 1;
      DeadIsSilent(g, s, p, steps[..n]);
      var t := ExecFrom(g, s, steps[..n]);
      if OfNode(steps[n]) && steps[n].node == p {
        DeathStep(g, t, p, t.nodes[p], steps[n]);
        OwnStep(g, t, p, steps[n]);
        assert SentBy(p, t.released) + [] == SentBy(p, t.released);
      } else {
        OtherStep(g, t, p, steps[n]);
      }
    }
  }

  /** Anybody's request with a malformed witness or without a usable registry entry kills every
      worker that opens it: exactly when its hexadecimal does not decode, the registry gives
      nothing usable for its filename, or its witness is no list of the right length. */
  lemma BadRequestKills(hash: Bytes -> Bytes, threshold: nat, sha256: Bytes -> Bytes32, env: Env, s: Sys, p: nat,
                        n: NodeState)
    requires n.job.Taken?
    ensures var g := Deployed(hash, threshold, sha256, env);
            var found := GetIntent(env.cidValid, s.registry, n.job.req.filename);
            var ws := DecodeWitnesses(n.job.req.witnessHex);
            Kills(g, s, p, n, OpenRequest(p)) <==>
              ws.None? || !found.Done? || found.value.None? || |ws.value| != |found.value.value.1|
  {
    hide OpenList, GetIntent, DecodeWitnesses;
    OpensIff(env, s.registry, n.job.req);
  }

  lemma OpensIff(env: Env, r: Registry.Registry, req: Request)
    ensures var found, ws := GetIntent(env.cidValid, r, req.filename), DecodeWitnesses(req.witnessHex);
            var opens := OpenList(env, r, req);
            && (opens.Some? <==> ws.Some? && found.Done? && found.value.Some?)
            && (opens.Some? ==> opens.value.0.intents == found.value.value.1 && opens.value.1 == ws.value)
  {
    hide GetIntent, Hex.Decode, Witnesses;
  }

  /** Once the worker is dead, the next new request offered to its channel ends the watcher. */
  lemma DeadEndsWatcher(g: Setting, n: NodeState)
    requires n.job.Dead? && n.round.Offering? && n.round.next < |n.round.snapshot|
    ensures OfferStep(g.id, n).round.Ended? <==> g.id(n.round.snapshot[n.round.next]) !in n.watch.seen
  {
  }

  /** A step of its own ends a watcher exactly when a read fails, the pool's list is too long to
      be read, or a new request is offered to a worker that is dead. */
  lemma WatcherEndsIff(g: Setting, s: Sys, p: nat, n: NodeState, step: Step)
    requires ReadsTruly(g) && OfNode(step) && !n.round.Ended?
    ensures NodeStep(g, s, p, n, step).0.round.Ended? <==>
            if n.round.Waiting? then step.ReadFails? || (step.ReadPool? && !g.fits(ReadAll(s.pool)))
            else step.OfferNext? && n.job.Dead? && n.round.next < |n.round.snapshot|
                 && g.id(n.round.snapshot[n.round.next]) !in n.watch.seen
  {
    hide Delivered;
    if step.ReadPool? { assert g.fetch(s.pool).None? <==> !g.fits(ReadAll(s.pool)); }
  }

  /** A node that cannot reach the requester sends nothing, and its worker goes on to the next
      request unless making the answer killed it. */
  lemma UnreachableUnanswered(g: Setting, s: Sys, p: nat, n: NodeState, survives: bool)
    requires n.job.Verifying? && n.job.next >= |n.job.ws|
    ensures var (m, sent) := NodeStep(g, s, p, n, FetchAndSend(p, false, survives));
            var verdict := g.finish(s.docs, p, n.job.req, n.job.found.cid);
            sent == [] && m == n.(job := if verdict == Panic then Dead else Idle)
  {
  }

  // ---- Exactly-once delivery ----

  /** The hash tells the encodings of these values apart. */
  ghost predicate HashesApart<T>(c: Scale.Codec<T>, hash: Bytes -> Bytes, xs: seq<T>) {
    forall x, y | x in xs && y in xs :: hash(c.enc(x)) == hash(c.enc(y)) ==> c.enc(x) == c.enc(y)
  }

  /** SHA-256 tells the encodings of these requests apart. */
  ghost predicate Apart(sha256: Bytes -> Bytes32, rs: seq<Request>) { HashesApart(RequestCodec(), sha256, rs) }

  ghost predicate DistinctIds<T>(id: T -> Bytes, xs: seq<T>) {
    forall i, j | 0 <= i < j < |xs| :: id(xs[i]) != id(xs[j])
  }

  /** Different values have different hashes of their encodings. */
  lemma HashesDistinct<T(!new)>(c: Scale.Codec<T>, hash: Bytes -> Bytes, xs: seq<T>)
    requires Scale.Lawful(c) && Scale.AllOk(c, xs) && NoDup(xs) && HashesApart(c, hash, xs)
    ensures DistinctIds(HashId(c, hash), xs)
  {
    forall i, j | 0 <= i < j < |xs| ensures HashId(c, hash)(xs[i]) != HashId(c, hash)(xs[j]) {
      if c.enc(xs[i]) == c.enc(xs[j]) {
        Scale.Injective(c, xs[i], xs[j]);
      }
    }
  }

  lemma ApartPrefix<T>(c: Scale.Codec<T>, hash: Bytes -> Bytes, xs: seq<T>, n: nat)
    requires HashesApart(c, hash, xs) && NoDup(xs) && n <= |xs|
    ensures HashesApart(c, hash, xs[..n]) && NoDup(xs[..n])
  {
    assert forall x | x in xs[..n] :: x in xs;
  }

  /** Different encodable requests have different ids, because their encodings differ. */
  lemma IdsDistinct(sha256: Bytes -> Bytes32, rs: seq<Request>)
    requires NoDup(rs) && Apart(sha256, rs) && RequestList().ok(rs)
    ensures DistinctIds(RequestId(sha256), rs)
  {
    RequestsLawful();
    Scale.VecOk(RequestCodec(), rs);
    HashesDistinct(RequestCodec(), sha256, rs);
  }

  /** The ids tell the requests of this list apart, if the list can be sent at all. */
  ghost predicate Tells(g: Setting, rs: seq<Request>) { g.fits(rs) ==> DistinctIds(g.id, rs) }

  ghost predicate Told(g: Setting, all: seq<Request>) { forall n | 0 <= n <= |all| :: Tells(g, all[..n]) }

  lemma ToldBefore(g: Setting, all: seq<Request>, more: seq<Request>)
    requires Told(g, more) && all <= more
    ensures Told(g, all)
  {
    forall n | 0 <= n <= |all| ensures Tells(g, all[..n]) { assert all[..n] == more[..n]; }
  }

  /** Hashing SCALE encodings tells them apart. */
  lemma HashTells(sha256: Bytes -> Bytes32, all: seq<Request>, n: nat)
    requires NoDup(all) && Apart(sha256, all) && n <= |all| && RequestList().ok(all[..n])
    ensures DistinctIds(RequestId(sha256), all[..n])
  {
    ApartPrefix(RequestCodec(), sha256, all, n);
    IdsDistinct(sha256, all[..n]);
  }

  lemma DeployedTold(hash: Bytes -> Bytes, threshold: nat, sha256: Bytes -> Bytes32, env: Env, all: seq<Request>)
    requires NoDup(all) && Apart(sha256, all)
    ensures Told(Deployed(hash, threshold, sha256, env), all)
  {
    var g := Deployed(hash, threshold, sha256, env);
    forall n | 0 <= n <= |all| ensures Tells(g, all[..n]) {
      if g.fits(all[..n]) { HashTells(sha256, all, n); }
    }
  }

  /** How many of the requests taken have been dealt with. */
  function Finished(n: NodeState): int { if Busy(n) then n.taken - 1 else n.taken }

  /** The channel holds the front of the pool, in order; between reads it holds the last
      snapshot exactly. */
  ghost predicate Delivered(id: Request -> Bytes, all: seq<Request>, n: NodeState) {
    && n.watch.sent <= all
    && match n.round
       case Waiting(last) => n.watch.sent == last && n.watch.seen == Ids(id, n.watch.sent)
       case Offering(snapshot, next) =>
         && n.watch.sent <= snapshot <= all && next <= |n.watch.sent|
         && n.watch.seen == Ids(id, n.watch.sent) && DistinctIds(id, snapshot)
       case Ended => true
  }

  ghost predicate Working(n: NodeState) {
    && 0 <= Finished(n) <= n.taken <= |n.watch.sent| && (Busy(n) ==> n.job.req == n.watch.sent[n.taken - 1])
    && (n.job.Verifying? ==> |n.job.ws| == |n.job.found.intents|)
  }

  lemma OfferKeeps(id: Request -> Bytes, all: seq<Request>, n: NodeState)
    requires Delivered(id, all, n)
    ensures Delivered(id, all, OfferStep(id, n)) && n.watch.sent <= OfferStep(id, n).watch.sent
  {
    if n.round.Offering? && n.round.next < |n.round.snapshot| {
      OfferDelivers(id, n.watch, n.round.snapshot, n.round.next, !n.job.Dead?);
    }
  }

  lemma ReadKeeps(g: Setting, s: Sys, n: NodeState)
    requires ReadsTruly(g) && Delivered(g.id, ReadAll(s.pool), n) && Told(g, ReadAll(s.pool))
    ensures Delivered(g.id, ReadAll(s.pool), ReadStep(g, s, n)) && ReadStep(g, s, n).watch == n.watch
  {
    var all := ReadAll(s.pool);
    assert all[..|all|] == all;
    assert Tells(g, all[..|all|]);
  }

  /** The watcher's half of a step. */
  lemma WatcherMoves(g: Setting, s: Sys, p: nat, n: NodeState, step: Step)
    requires OfNode(step) && Delivered(g.id, ReadAll(s.pool), n)
    requires ReadsTruly(g) && Told(g, ReadAll(s.pool))
    ensures var m := NodeStep(g, s, p, n, step).0;
            Delivered(g.id, ReadAll(s.pool), m) && n.watch.sent <= m.watch.sent
  {
    if step.OfferNext? {
      OfferKeeps(g.id, ReadAll(s.pool), n);
    } else if step.ReadPool? {
      ReadKeeps(g, s, n);
    }
  }

  /** The worker's half of a step: a request is answered only when it is the one in hand. */
  ghost predicate WorkDone(p: nat, n: NodeState, m: NodeState, sent: seq<Sent>) {
    && Working(m) && Finished(n) <= Finished(m)
    && (sent != [] ==>
          && |sent| == 1 && sent[0].node == p && 0 <= Finished(n) < Finished(m) && Finished(n) < |n.watch.sent|
          && sent[0].req == n.watch.sent[Finished(n)])
  }

  lemma OtherWork(p: nat, n: NodeState, m: NodeState)
    requires Working(n) && m.job == n.job && m.taken == n.taken && n.watch.sent <= m.watch.sent
    ensures WorkDone(p, n, m, [])
  {
  }

  lemma OpenWorks(g: Setting, s: Sys, p: nat, n: NodeState)
    requires Working(n)
    ensures WorkDone(p, n, OpenStep(g, s, n), [])
  {
  }

  lemma VerifyWorks(g: Setting, s: Sys, p: nat, n: NodeState)
    requires Working(n)
    ensures WorkDone(p, n, VerifyStep(g, s, n), [])
  {
  }

  lemma SendWorks(g: Setting, s: Sys, p: nat, n: NodeState, connected: bool, survives: bool)
    requires Working(n)
    ensures var (m, sent) := SendStep(g, s, p, n, connected, survives); WorkDone(p, n, m, sent)
  {
  }

  lemma WorkerMoves(g: Setting, s: Sys, p: nat, n: NodeState, step: Step)
    requires OfNode(step) && Working(n)
    ensures var (m, sent) := NodeStep(g, s, p, n, step); WorkDone(p, n, m, sent)
  {
    match step
    case ReadPool(_) => OtherWork(p, n, ReadStep(g, s, n));
    case ReadFails(_) => OtherWork(p, n, NodeStep(g, s, p, n, step).0);
    case OfferNext(_) => OtherWork(p, n, OfferStep(g.id, n));
    case TakeNext(_) =>
    case OpenRequest(_) => OpenWorks(g, s, p, n);
    case VerifyNext(_) => VerifyWorks(g, s, p, n);
    case FetchAndSend(_, connected, survives) => SendWorks(g, s, p, n, connected, survives);
  }

  /** What a node has answered lies behind it in its channel. */
  ghost predicate Answers(p: nat, n: NodeState, released: seq<Sent>) {
    0 <= Finished(n) <= |n.watch.sent|
    && forall k | 0 <= k < |released| && released[k].node == p :: released[k].req in n.watch.sent[..Finished(n)]
  }

  ghost predicate NodeOk(g: Setting, s: Sys, p: nat, n: NodeState) {
    Working(n) && Delivered(g.id, ReadAll(s.pool), n) && Answers(p, n, s.released)
  }

  ghost predicate OncePerNode(released: seq<Sent>) {
    forall a, b | 0 <= a < b < |released| && released[a].node == released[b].node :: released[a].req != released[b].req
  }

  ghost predicate NetOk(g: Setting, s: Sys) {
    && RequestPool.Inv(g.hash, g.threshold, s.pool)
    && (forall p | p in s.nodes :: NodeOk(g, s, p, s.nodes[p]))
    && (forall k | 0 <= k < |s.released| :: s.released[k].node in s.nodes)
    && OncePerNode(s.released)
  }

  /** Answering the request in hand repeats no earlier answer of that node. */
  lemma AnswerOnce(p: nat, n: NodeState, m: NodeState, released: seq<Sent>, sent: seq<Sent>)
    requires Answers(p, n, released) && OncePerNode(released) && NoDup(n.watch.sent)
    requires n.watch.sent <= m.watch.sent && Finished(n) <= Finished(m) <= |m.watch.sent|
    requires sent != [] ==>
               && |sent| == 1 && sent[0].node == p && Finished(n) < Finished(m) && Finished(n) < |n.watch.sent|
               && sent[0].req == n.watch.sent[Finished(n)]
    ensures Answers(p, m, released + sent) && OncePerNode(released + sent)
  {
    var all := released + sent;
    forall k | 0 <= k < |all| && all[k].node == p ensures all[k].req in m.watch.sent[..Finished(m)] {
      if k < |released| {
        var i :| 0 <= i < Finished(n) && n.watch.sent[..Finished(n)][i] == all[k].req;
        assert m.watch.sent[..Finished(m)][i] == all[k].req;
      } else {
        assert m.watch.sent[..Finished(m)][Finished(n)] == all[k].req;
      }
    }
    forall a, b | 0 <= a < b < |all| && all[a].node == all[b].node ensures all[a].req != all[b].req {
      if b >= |released| {
        var i :| 0 <= i < Finished(n) && n.watch.sent[..Finished(n)][i] == all[a].req;
      }
    }
  }

  /** What a step of node p needs to keep, and what it sends. */
  lemma NodeKeeps(g: Setting, s: Sys, p: nat, n: NodeState, step: Step)
    requires NodeOk(g, s, p, n) && OncePerNode(s.released) && OfNode(step)
    requires ReadsTruly(g) && NoDup(ReadAll(s.pool)) && Told(g, ReadAll(s.pool))
    ensures var (m, sent) := NodeStep(g, s, p, n, step);
            && NodeOk(g, s.(released := s.released + sent), p, m) && OncePerNode(s.released + sent)
            && forall k | 0 <= k < |sent| :: sent[k].node == p
  {
    var (m, sent) := NodeStep(g, s, p, n, step);
    WatcherMoves(g, s, p, n, step);
    WorkerMoves(g, s, p, n, step);
    assert NoDup(n.watch.sent);
    AnswerOnce(p, n, m, s.released, sent);
  }

  lemma NodeMoves(g: Setting, s: Sys, step: Step)
    requires NetOk(g, s) && OfNode(step) && step.node in s.nodes && ReadsTruly(g) && Told(g, ReadAll(s.pool))
    ensures NetOk(g, Apply(g, s, step))
  {
    var p := step.node;
    var (m, sent) := NodeStep(g, s, p, s.nodes[p], step);
    ReadAllFaithful(g.hash, s.pool);
    NodeKeeps(g, s, p, s.nodes[p], step);
    NodeReplaced(g, s, p, m, sent);
  }

  lemma NodeReplaced(g: Setting, s: Sys, p: nat, m: NodeState, sent: seq<Sent>)
    requires NetOk(g, s) && p in s.nodes && forall k | 0 <= k < |sent| :: sent[k].node == p
    requires OncePerNode(s.released + sent)
    requires NodeOk(g, s.(released := s.released + sent), p, m)
    ensures NetOk(g, s.(nodes := s.nodes[p := m], released := s.released + sent))
  {
    var t := s.(nodes := s.nodes[p := m], released := s.released + sent);
    forall q | q in t.nodes ensures NodeOk(g, t, q, t.nodes[q]) {
      if q != p {
        assert NodeOk(g, s, q, s.nodes[q]);
      }
    }
  }

  lemma PoolMoves(g: Setting, s: Sys, message: RequestPool.Message)
    requires NetOk(g, s) && 1 <= g.threshold <= U32_MAX
    ensures NetOk(g, Apply(g, s, PoolMessage(message)))
    ensures ReadAll(s.pool) <= ReadAll(Apply(g, s, PoolMessage(message)).pool)
  {
    var t := Apply(g, s, PoolMessage(message));
    StepReads(g.hash, g.threshold, s.pool, message);
    forall p | p in t.nodes ensures NodeOk(g, t, p, t.nodes[p]) {
      assert NodeOk(g, s, p, s.nodes[p]);
    }
  }

  lemma OthersMove(g: Setting, s: Sys, step: Step)
    requires NetOk(g, s) && !OfNode(step) && !step.PoolMessage?
    ensures NetOk(g, Apply(g, s, step)) && Apply(g, s, step).pool == s.pool
  {
    var t := Apply(g, s, step);
    forall p | p in t.nodes ensures NodeOk(g, t, p, t.nodes[p]) {
      NodeAfter(g, s, step, p);
      if p in s.nodes {
        assert NodeOk(g, s, p, s.nodes[p]);
      } else {
        assert Ids(g.id, NEWBORN.watch.sent) == {};
      }
    }
  }

  lemma StepOk(g: Setting, s: Sys, step: Step)
    requires NetOk(g, s) && 1 <= g.threshold <= U32_MAX && ReadsTruly(g) && Told(g, ReadAll(Apply(g, s, step).pool))
    ensures NetOk(g, Apply(g, s, step)) && ReadAll(s.pool) <= ReadAll(Apply(g, s, step).pool)
  {
    if OfNode(step) {
      if step.node in s.nodes { NodeMoves(g, s, step); }
    } else if step.PoolMessage? {
      PoolMoves(g, s, step.message);
    } else {
      OthersMove(g, s, step);
    }
  }

  lemma {:induction false} AllOk(g: Setting, workers: seq<AccountId>, steps: seq<Step>)
    requires 1 <= g.threshold <= U32_MAX && ReadsTruly(g) && Told(g, ReadAll(Exec(g, workers, steps).pool))
    ensures NetOk(g, Exec(g, workers, steps))
  {
    if steps == [] {
      RequestPool.Reachable(g.hash, g.threshold, workers, []);
    } else {
      var s, step := Exec(g, workers, steps[..|steps| - 1]), steps[|steps| - 1];
      PoolReachable(g, workers, steps[..|steps| - 1]);
      PoolOnlyGrows(g, s, step);
      ToldBefore(g, ReadAll(s.pool), ReadAll(Apply(g, s, step).pool));
      AllOk(g, workers, steps[..|steps| - 1]);
      StepOk(g, s, step);
    }
  }

  /** Exactly-once delivery, over every run: each node's channel is the front of the pool's
      list, in order and without repeats; whenever its watcher is between reads, the channel
      is the last snapshot read, item for item; its worker takes each request of the channel
      at most once, and a node never answers the same request twice. */
  lemma ExactlyOnce(hash: Bytes -> Bytes, threshold: nat, sha256: Bytes -> Bytes32, env: Env,
                    workers: seq<AccountId>, steps: seq<Step>)
    requires 1 <= threshold <= U32_MAX
    requires Apart(sha256, ReadAll(Exec(Deployed(hash, threshold, sha256, env), workers, steps).pool))
    ensures var s := Exec(Deployed(hash, threshold, sha256, env), workers, steps);
            && NoDup(ReadAll(s.pool)) && OncePerNode(s.released)
            && forall p | p in s.nodes :: InOrder(ReadAll(s.pool), s.nodes[p])
  {
    var g := Deployed(hash, threshold, sha256, env);
    var s := Exec(g, workers, steps);
    PoolReachable(g, workers, steps);
    ReadAllFaithful(g.hash, s.pool);
    DeployedTold(hash, threshold, sha256, env, ReadAll(s.pool));
    DeployedReadsTruly(hash, threshold, sha256, env);
    AllOk(g, workers, steps);
    forall p | p in s.nodes ensures InOrder(ReadAll(s.pool), s.nodes[p]) { OkInOrder(g, s, p); }
  }

  ghost predicate InOrder(all: seq<Request>, n: NodeState) {
    && n.watch.sent <= all && n.taken <= |n.watch.sent|
    && (n.round.Waiting? ==> n.watch.sent == n.round.last)
    && (Busy(n) ==> n.taken > 0 && n.job.req == n.watch.sent[n.taken - 1])
  }

  lemma OkInOrder(g: Setting, s: Sys, p: nat)
    requires NetOk(g, s) && p in s.nodes
    ensures InOrder(ReadAll(s.pool), s.nodes[p])
  {
    assert NodeOk(g, s, p, s.nodes[p]);
  }

  // ---- From the pool into a worker's hands ----

  /** Steps under which node p's watcher lives on: no read of it fails. */
  predicate Reading(p: nat, step: Step) { step != ReadFails(p) }

  /** The watcher's next step: a read between snapshots, an offer within one. */
  predicate WatchDue(s: Sys, p: nat, step: Step) {
    && p in s.nodes
    && if s.nodes[p].round.Waiting? then step == ReadPool(p) else s.nodes[p].round.Offering? && step == OfferNext(p)
  }

  /** At most so many more of these until the channel holds request j of the pool. */
  function WatchLeft(n: NodeState, j: nat): int {
    if |n.watch.sent| > j then 0
    else match n.round
      case Waiting(_) => j + 2
      case Offering(snapshot, next) => if |snapshot| > j then j + 1 - next else |snapshot| - next + 1 + j + 2
      case Ended => 0
  }

  function WatchTurns(g: Setting, s: Sys, p: nat, steps: seq<Step>): nat {
    if steps == [] then 0
    else
      var before := steps[..|steps| - 1];
      WatchTurns(g, s, p, before) + (if WatchDue(ExecFrom(g, s, before), p, steps[|steps| - 1]) then 1 else 0)
  }

  /** A node whose watcher and worker are alive, in a network whose pool can be read. */
  predicate Live(g: Setting, s: Sys, p: nat) {
    p in s.nodes && !s.nodes[p].round.Ended? && !s.nodes[p].job.Dead? && g.fits(ReadAll(s.pool))
  }

  lemma OfferTurn(id: Request -> Bytes, all: seq<Request>, n: NodeState, j: nat)
    requires Delivered(id, all, n) && n.round.Offering? && !n.job.Dead? && j < |all|
    ensures var m := OfferStep(id, n);
            !m.round.Ended? && WatchLeft(m, j) <= WatchLeft(n, j) - (if |n.watch.sent| > j then 0 else 1)
  {
    if n.round.next < |n.round.snapshot| {
      OfferDelivers(id, n.watch, n.round.snapshot, n.round.next, true);
    }
  }

  lemma ReadTurn(g: Setting, s: Sys, n: NodeState, j: nat)
    requires ReadsTruly(g) && g.fits(ReadAll(s.pool)) && n.round.Waiting? && j < |ReadAll(s.pool)|
    ensures var m := ReadStep(g, s, n);
            !m.round.Ended? && WatchLeft(m, j) <= WatchLeft(n, j) - (if |n.watch.sent| > j then 0 else 1)
  {
  }

  lemma OwnWatchTurn(g: Setting, s: Sys, p: nat, n: NodeState, j: nat, step: Step)
    requires ReadsTruly(g) && Delivered(g.id, ReadAll(s.pool), n) && g.fits(ReadAll(s.pool)) && j < |ReadAll(s.pool)|
    requires !n.round.Ended? && !n.job.Dead? && OfNode(step) && !step.ReadFails?
    ensures var m := NodeStep(g, s, p, n, step).0;
            && !m.round.Ended? && WatchLeft(m, j) <= WatchLeft(n, j)
            && ((if n.round.Waiting? then step.ReadPool? else step.OfferNext?) && |n.watch.sent| <= j ==>
                  WatchLeft(m, j) < WatchLeft(n, j))
  {
    match step
    case ReadPool(_) => if n.round.Waiting? { ReadTurn(g, s, n, j); }
    case OfferNext(_) => if n.round.Offering? { OfferTurn(g.id, ReadAll(s.pool), n, j); }
    case _ => WatchUntouched(g, s, p, n, step);
  }

  lemma WatchTurn(g: Setting, s: Sys, p: nat, j: nat, step: Step)
    requires NetOk(g, s) && ReadsTruly(g) && Live(g, s, p) && Reading(p, step) && j < |ReadAll(s.pool)|
    ensures var t := Apply(g, s, step);
            && p in t.nodes && !t.nodes[p].round.Ended?
            && WatchLeft(t.nodes[p], j) <= WatchLeft(s.nodes[p], j)
            && (WatchDue(s, p, step) && |s.nodes[p].watch.sent| <= j ==>
                  WatchLeft(t.nodes[p], j) < WatchLeft(s.nodes[p], j))
  {
    var n := s.nodes[p];
    assert NodeOk(g, s, p, n);
    hide Apply, NetOk, RequestPool.Inv, ReadAll, NodeStep, Delivered, WatchLeft;
    if OfNode(step) && step.node == p {
      OwnStep(g, s, p, step);
      OwnWatchTurn(g, s, p, n, j, step);
    } else {
      OtherStep(g, s, p, step);
    }
  }

  lemma WatchUntouched(g: Setting, s: Sys, p: nat, n: NodeState, step: Step)
    requires OfNode(step) && !step.ReadPool? && !step.ReadFails? && !step.OfferNext?
    ensures var m := NodeStep(g, s, p, n, step).0; m.watch == n.watch && m.round == n.round
  {
  }

  /** The network's invariant along a run from any sound state. */
  lemma {:induction false} OkFrom(g: Setting, s: Sys, steps: seq<Step>)
    requires NetOk(g, s) && 1 <= g.threshold <= U32_MAX && ReadsTruly(g) && Told(g, ReadAll(ExecFrom(g, s, steps).pool))
    ensures NetOk(g, ExecFrom(g, s, steps)) && ReadAll(s.pool) <= ReadAll(ExecFrom(g, s, steps).pool)
  {
    if steps != [] {
      var before := steps[..|steps| - 1];
      var t := ExecFrom(g, s, before);
      PoolFrom(g, s, before);
      PoolOnlyGrows(g, t, steps[|steps| - 1]);
      ToldBefore(g, ReadAll(t.pool), ReadAll(ExecFrom(g, s, steps).pool));
      OkFrom(g, s, before);
      StepOk(g, t, steps[|steps| - 1]);
    }
  }

  lemma {:induction false} PoolFrom(g: Setting, s: Sys, steps: seq<Step>)
    requires RequestPool.Inv(g.hash, g.threshold, s.pool) && 1 <= g.threshold <= U32_MAX
    ensures RequestPool.Inv(g.hash, g.threshold, ExecFrom(g, s, steps).pool)
    ensures ReadAll(s.pool) <= ReadAll(ExecFrom(g, s, steps).pool)
  {
    if steps != [] {
      PoolFrom(g, s, steps[..|steps| - 1]);
      PoolOnlyGrows(g, ExecFrom(g, s, steps[..|steps| - 1]), steps[|steps| - 1]);
    }
  }

  /** While node p is live, whatever else happens: request j of the pool is in its channel, at
      position j, after at most 2 j + 3 turns of its watcher. */
  lemma {:induction false} ReachesChannel(g: Setting, s: Sys, p: nat, j: nat, steps: seq<Step>)
    requires NetOk(g, s) && 1 <= g.threshold <= U32_MAX && ReadsTruly(g) && j < |ReadAll(s.pool)|
    requires Told(g, ReadAll(ExecFrom(g, s, steps).pool))
    requires forall i | 0 <= i <= |steps| :: Live(g, ExecFrom(g, s, steps[..i]), p)
    requires forall i | 0 <= i < |steps| :: Reading(p, steps[i])
    ensures p in s.nodes && p in ExecFrom(g, s, steps).nodes
    ensures var n := ExecFrom(g, s, steps).nodes[p];
            && (|n.watch.sent| <= j ==> WatchLeft(n, j) + WatchTurns(g, s, p, steps) <= WatchLeft(s.nodes[p], j))
            && (WatchTurns(g, s, p, steps) >= 2 * j + 3 ==> |n.watch.sent| > j && n.watch.sent[j] == ReadAll(s.pool)[j])
  {
    hide Apply, NetOk, ReadsTruly, Told, WatchLeft, WatchDue;
    PoolSound(g, s);
    assert Live(g, ExecFrom(g, s, steps[..0]), p) && steps[..|steps|] == steps;
    assert Live(g, ExecFrom(g, s, steps[..|steps|]), p);
    OkFrom(g, s, steps);
    if steps != [] {
      var n := |steps| - 1;
      var before := steps[..n];
      var t := ExecFrom(g, s, before);
      forall i | 0 <= i <= |before| ensures Live(g, ExecFrom(g, s, before[..i]), p) {
        assert before[..i] == steps[..i];
        assert Live(g, ExecFrom(g, s, steps[..i]), p);
      }
      PoolFrom(g, s, before);
      PoolOnlyGrows(g, t, steps[n]);
      ToldBefore(g, ReadAll(t.pool), ReadAll(ExecFrom(g, s, steps).pool));
      ReachesChannel(g, s, p, j, before);
      OkFrom(g, s, before);
      assert Live(g, ExecFrom(g, s, before[..|before|]), p) && before[..|before|] == before;
      WatchTurn(g, t, p, j, steps[n]);
      SentGrows(g, t, p, steps[n]);
    }
    InChannel(g, s, ExecFrom(g, s, steps), p, j, WatchTurns(g, s, p, steps));
  }

  lemma InChannel(g: Setting, s: Sys, t: Sys, p: nat, j: nat, turns: nat)
    requires NetOk(g, s) && NetOk(g, t) && Live(g, s, p) && Live(g, t, p) && j < |ReadAll(s.pool)|
    requires ReadAll(s.pool) <= ReadAll(t.pool)
    requires |t.nodes[p].watch.sent| <= j ==> WatchLeft(t.nodes[p], j) + turns <= WatchLeft(s.nodes[p], j)
    ensures var sent := t.nodes[p].watch.sent; turns >= 2 * j + 3 ==> |sent| > j && sent[j] == ReadAll(s.pool)[j]
  {
    assert NodeOk(g, s, p, s.nodes[p]) && NodeOk(g, t, p, t.nodes[p]);
  }

  lemma SentGrows(g: Setting, s: Sys, p: nat, step: Step)
    requires p in s.nodes
    ensures var t := Apply(g, s, step);
            p in t.nodes && |s.nodes[p].watch.sent| <= |t.nodes[p].watch.sent|
  {
    NodeAfter(g, s, step, p);
  }

  predicate TakeDue(s: Sys, p: nat, step: Step) {
    p in s.nodes && step == TakeNext(p) && s.nodes[p].job.Idle? && s.nodes[p].taken < |s.nodes[p].watch.sent|
  }

  function TakeTurns(g: Setting, s: Sys, p: nat, steps: seq<Step>): nat {
    if steps == [] then 0
    else
      var before := steps[..|steps| - 1];
      TakeTurns(g, s, p, before) + (if TakeDue(ExecFrom(g, s, before), p, steps[|steps| - 1]) then 1 else 0)
  }

  lemma TakeTurn(g: Setting, s: Sys, p: nat, step: Step)
    requires p in s.nodes
    ensures var n, t := s.nodes[p], Apply(g, s, step);
            && p in t.nodes && t.nodes[p].taken == n.taken + (if TakeDue(s, p, step) then 1 else 0)
            && (TakeDue(s, p, step) ==> t.nodes[p].job == Taken(n.watch.sent[n.taken]))
  {
    NodeAfter(g, s, step, p);
  }

  lemma {:induction false} TakenCount(g: Setting, s: Sys, p: nat, steps: seq<Step>)
    requires p in s.nodes
    ensures var t := ExecFrom(g, s, steps);
            p in t.nodes && t.nodes[p].taken == s.nodes[p].taken + TakeTurns(g, s, p, steps)
  {
    if steps != [] {
      TakenCount(g, s, p, steps[..|steps| - 1]);
      TakeTurn(g, ExecFrom(g, s, steps[..|steps| - 1]), p, steps[|steps| - 1]);
    }
  }

  /** The worker takes the pool's requests in order: request j has been in its hands, just
      taken, once it has taken as many as lie before it and one more. */
  lemma {:induction false} ReachesHands(g: Setting, s: Sys, p: nat, j: nat, steps: seq<Step>) returns (i: nat)
    requires NetOk(g, s) && 1 <= g.threshold <= U32_MAX && ReadsTruly(g) && p in s.nodes
    requires s.nodes[p].taken <= j < |ReadAll(s.pool)| && Told(g, ReadAll(ExecFrom(g, s, steps).pool))
    requires TakeTurns(g, s, p, steps) >= j + 1 - s.nodes[p].taken
    ensures i <= |steps|
    ensures var t := ExecFrom(g, s, steps[..i]); p in t.nodes && t.nodes[p].job == Taken(ReadAll(s.pool)[j])
  {
    hide Apply, NetOk, Told, TakeDue, ReadsTruly;
    var before := steps[..|steps| - 1];
    var t := ExecFrom(g, s, before);
    PoolSound(g, s);
    PoolFrom(g, s, before);
    PoolOnlyGrows(g, t, steps[|steps| - 1]);
    ToldBefore(g, ReadAll(t.pool), ReadAll(ExecFrom(g, s, steps).pool));
    TakenCount(g, s, p, before);
    if TakeTurns(g, s, p, before) >= j + 1 - s.nodes[p].taken {
      i := ReachesHands(g, s, p, j, before);
      assert before[..i] == steps[..i];
    } else {
      i := |steps|;
      assert steps[..i] == steps;
      OkFrom(g, s, before);
      HandTurn(g, ReadAll(s.pool), t, p, j, steps[|steps| - 1]);
    }
  }

  lemma PoolSound(g: Setting, s: Sys)
    requires NetOk(g, s)
    ensures RequestPool.Inv(g.hash, g.threshold, s.pool)
  {
  }

  lemma HandTurn(g: Setting, all: seq<Request>, s: Sys, p: nat, j: nat, step: Step)
    requires NetOk(g, s) && TakeDue(s, p, step) && s.nodes[p].taken == j < |all| && all <= ReadAll(s.pool)
    ensures var t := Apply(g, s, step); p in t.nodes && t.nodes[p].job == Taken(all[j])
  {
    assert NodeOk(g, s, p, s.nodes[p]);
    TakeTurn(g, s, p, step);
  }

  /** An opened request's CID and intents are what one registry read answered. */
  lemma OpenMeans(env: Env, r: Registry.Registry, req: Request, o: Opened, ws: seq<Bytes>)
    requires OpenList(env, r, req) == Some((o, ws))
    ensures GetIntent(env.cidValid, r, req.filename) == Done(Some((o.cid, o.intents)))
    ensures DecodeWitnesses(req.witnessHex) == Some(ws)
  {
    OpenReads(env, r, req);
  }

  /** What was sent is the share of the ciphertext under the CID. */
  lemma FinishMeans(env: Env, docs: Doc, p: nat, req: Request, cid: Bytes, message: Bytes) returns (ciphertext: Bytes)
    requires Finish(env, docs, p, req, cid) == Release(message)
    ensures Fetch(env.cidText, docs, cid) == Done(Some(ciphertext))
    ensures env.shareOf(p, ciphertext).Some? && p < 256
    ensures PartialDecryptionCodec().dec(message) ==
        Some((PartialDecryption(req.filename, p, env.shareOf(p, ciphertext).value), []))
  {
    ReleasedMessage(env, docs, p, req, cid);
    ciphertext := Fetch(env.cidText, docs, cid).value.value;
  }

  /** Between steps i and j, at some height the chain then stood at, the gadget the node has
      registered for the intent's type accepted the witness. */
  ghost predicate ApprovedIn(g: Setting, workers: seq<AccountId>, steps: seq<Step>, i: nat, j: nat, intent: Intent,
                             w: Bytes) {
    && intent.typ in g.gadgets
    && exists m, at :: i <= m <= j && m <= |steps| && at == At(g, workers, steps, m).height
         && g.gadgets[intent.typ].verifyWitness(at, w, intent.statement) == Done(true)
  }

  lemma Approved(g: Setting, workers: seq<AccountId>, steps: seq<Step>, i: nat, j: nat, intent: Intent, w: Bytes)
    requires AcceptedIn(g, workers, steps, i, j, intent, w) && intent.gadget.None?
    ensures ApprovedIn(g, workers, steps, i, j, intent, w)
  {
    var m :| i <= m <= j && m <= |steps| && Satisfied(g.gadgets, At(g, workers, steps, m).height, intent, w);
    var at := At(g, workers, steps, m).height;
    assert g.gadgets[intent.typ].verifyWitness(at, w, intent.statement) == Done(true);
  }

  /** Release safety, over every run: a message a node has sent answers a request that was in
      the pool when the node opened it; a single read of the registry then gave the CID and
      the intents for that request's filename; the node has a gadget for each intent's type,
      and that gadget accepted the witness at the intent's position, at a height between
      that read and the sending; and the message carries the node's share of exactly the
      ciphertext that the document then held under that CID. */
  lemma ReleaseSafety(hash: Bytes -> Bytes, threshold: nat, sha256: Bytes -> Bytes32, env: Env,
                      workers: seq<AccountId>, steps: seq<Step>, k: nat)
    returns (i: nat, j: nat, o: Opened, ws: seq<Bytes>, ciphertext: Bytes)
    requires 1 <= threshold <= U32_MAX && k < |Exec(Deployed(hash, threshold, sha256, env), workers, steps).released|
    ensures var g := Deployed(hash, threshold, sha256, env);
            var r := Exec(g, workers, steps).released[k];
            && i <= j <= |steps| && r.req in ReadAll(At(g, workers, steps, i).pool)
            && GetIntent(env.cidValid, At(g, workers, steps, i).registry, r.req.filename) ==
                Done(Some((o.cid, o.intents)))
            && DecodeWitnesses(r.req.witnessHex) == Some(ws) && |ws| == |o.intents|
            && (forall n: nat | n < |ws| :: ApprovedIn(g, workers, steps, i, j, o.intents[n], ws[n]))
            && Fetch(env.cidText, At(g, workers, steps, j).docs, o.cid) == Done(Some(ciphertext))
            && env.shareOf(r.node, ciphertext).Some? && r.node < 256
            && PartialDecryptionCodec().dec(r.message)
               == Some((PartialDecryption(r.req.filename, r.node, env.shareOf(r.node, ciphertext).value), []))
  {
    hide Exec, OpenList, Finish, ReadsTruly, ApprovedIn, AcceptedIn, DecodeWitnesses, GetIntent, Fetch;
    var g := Deployed(hash, threshold, sha256, env);
    var r := Exec(g, workers, steps).released[k];
    DeployedReadsTruly(hash, threshold, sha256, env);
    i, j, o, ws := JustifiedRelease(g, workers, steps, k);
    OpenMeans(env, At(g, workers, steps, i).registry, r.req, o, ws);
    GetIntentExact(env.cidValid, At(g, workers, steps, i).registry, r.req.filename);
    forall n: nat | n < |ws| ensures ApprovedIn(g, workers, steps, i, j, o.intents[n], ws[n]) {
      assert AcceptedIn(g, workers, steps, i, j, o.intents[n], ws[n]);
      Approved(g, workers, steps, i, j, o.intents[n], ws[n]);
    }
    ciphertext := FinishMeans(env, At(g, workers, steps, j).docs, r.node, r.req, o.cid, r.message);
  }

  lemma JustifiedRelease(g: Setting, workers: seq<AccountId>, steps: seq<Step>, k: nat)
    returns (i: nat, j: nat, o: Opened, ws: seq<Bytes>)
    requires ReadsTruly(g) && 1 <= g.threshold <= U32_MAX && k < |Exec(g, workers, steps).released|
    ensures JustifiedAt(g, workers, steps, Exec(g, workers, steps).released[k], i, j, o, ws)
  {
    AllJustified(g, workers, steps);
    var r := Exec(g, workers, steps).released[k];
    assert Justified(g, workers, steps, r);
    i, j, o, ws :| JustifiedAt(g, workers, steps, r, i, j, o, ws);
  }
}
