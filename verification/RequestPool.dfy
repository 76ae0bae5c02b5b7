/** The request pool contract: requests, partial attestations, and finalisation at a
    threshold T of N workers, for any 1 <= T <= N. */
module RequestPool {
  import opened Basics

  type AccountId = Bytes32

  datatype Request = Request(filename: Bytes, witnessHex: Bytes, location: Bytes)

  datatype PoolError = RequestAlreadyExists | RequestNotFound | AlreadyFulfilled | Unauthorized | AlreadyAttested

  datatype Reply = Ok | Err(error: PoolError)

  /** The contract's storage. */
  datatype Pool = Pool(
    requests: map<Bytes, Request>,
    ids: seq<Bytes>,
    partials: map<(Bytes, AccountId), Bytes>,
    counts: map<Bytes, nat>,
    fulfilled: map<Bytes, Bytes>,
    workers: seq<AccountId>,
    count: nat)

  function New(workers: seq<AccountId>): Pool {
    Pool(map[], [], map[], map[], map[], workers, 0)
  }

  // ---- Messages ----

  /** The bytes whose hash is a request's id: its fields, one behind the other. */
  function Input(r: Request): Bytes { r.filename + r.witnessHex + r.location }

  function Add(hash: Bytes -> Bytes, p: Pool, r: Request): (Pool, Reply) {
    var id := hash(Input(r));
    if id in p.requests then (p, Err(RequestAlreadyExists))
    else (p.(requests := p.requests[id := r], ids := p.ids + [id], count := Min(p.count + 1, U64_MAX)), Ok)
  }

  function CountOf(p: Pool, id: Bytes): nat { if id in p.counts then p.counts[id] else 0 }

  /** The stored partials of a request, in worker-list order. */
  function Collected(workers: seq<AccountId>, partials: map<(Bytes, AccountId), Bytes>, id: Bytes): seq<Bytes> {
    if workers == [] then []
    else
      var w := workers[|workers| - 1];
      Collected(workers[..|workers| - 1], partials, id) + (if (id, w) in partials then [partials[(id, w)]] else [])
  }

  function Concat(parts: seq<Bytes>): Bytes {
    if parts == [] then [] else parts[0] + Concat(parts[1..])
  }

  function Finalize(p: Pool, id: Bytes): Pool {
    p.(fulfilled := p.fulfilled[id := Concat(Collected(p.workers, p.partials, id))])
  }

  function Submit(threshold: nat, p: Pool, caller: AccountId, id: Bytes, attestation: Bytes): (Pool, Reply) {
    if caller !in p.workers then (p, Err(Unauthorized))
    else if id !in p.requests then (p, Err(RequestNotFound))
    else if id in p.fulfilled then (p, Err(AlreadyFulfilled))
    else if (id, caller) in p.partials then (p, Err(AlreadyAttested))
    else
      var n := Min(CountOf(p, id) + 1, U32_MAX);
      var q := p.(partials := p.partials[(id, caller) := attestation], counts := p.counts[id := n]);
      (if n >= threshold then Finalize(q, id) else q, Ok)
  }

  function ReadIds(requests: map<Bytes, Request>, ids: seq<Bytes>): seq<Request> {
    if ids == [] then []
    else (if ids[0] in requests then [requests[ids[0]]] else []) + ReadIds(requests, ids[1..])
  }

  /** `read_all`: ids without a stored request are dropped. */
  function ReadAll(p: Pool): seq<Request> { ReadIds(p.requests, p.ids) }

  /** The deployed contract. */
  class RequestPoolContract {
    const hash: Bytes -> Bytes
    const threshold: nat
    var requests: map<Bytes, Request>
    var ids: seq<Bytes>
    var partials: map<(Bytes, AccountId), Bytes>
    var counts: map<Bytes, nat>
    var fulfilled: map<Bytes, Bytes>
    var workers: seq<AccountId>
    var count: nat

    ghost function Storage(): Pool
      reads this
    {
      Pool(requests, ids, partials, counts, fulfilled, workers, count)
    }

    constructor (hash: Bytes -> Bytes, threshold: nat, totalWorkers: nat, workers: seq<AccountId>)
      requires |workers| == totalWorkers
      ensures Storage() == Pool(map[], [], map[], map[], map[], workers, 0)
      ensures this.hash == hash && this.threshold == threshold
    {
      this.hash, this.threshold := hash, threshold;
      requests, ids, partials, counts, fulfilled := map[], [], map[], map[], map[];
      this.workers, count := workers, 0;
    }

    method AddRequest(filename: Bytes, witnessHex: Bytes, location: Bytes) returns (reply: Reply)
      modifies this
      ensures (Storage(), reply) == Add(hash, old(Storage()), Request(filename, witnessHex, location))
    {
      var input := filename;
      input := input + witnessHex;
      input := input + location;
      var id := hash(input);
      if id in requests {
        return Err(RequestAlreadyExists);
      }
      requests := requests[id := Request(filename, witnessHex, location)];
      ids := ids + [id];
      count := Min(count + 1, U64_MAX);
      return Ok;
    }

    method SubmitPartialAttestation(caller: AccountId, id: Bytes, attestation: Bytes) returns (reply: Reply)
      modifies this
      ensures (Storage(), reply) == Submit(threshold, old(Storage()), caller, id, attestation)
    {
      if caller !in workers {
        return Err(Unauthorized);
      }
      if id !in requests {
        return Err(RequestNotFound);
      }
      if id in fulfilled {
        return Err(AlreadyFulfilled);
      }
      if (id, caller) in partials {
        return Err(AlreadyAttested);
      }
      partials := partials[(id, caller) := attestation];
      var n := Min((if id in counts then counts[id] else 0) + 1, U32_MAX);
      counts := counts[id := n];
      if n >= threshold {
        FinalizeRequest(id);
      }
      return Ok;
    }

    method FinalizeRequest(id: Bytes)
      modifies this`fulfilled
      ensures Storage() == Finalize(old(Storage()), id)
    {
      var found: seq<Bytes> := [];
      var k := 0;
      while k < |workers|
        invariant 0 <= k <= |workers|
        invariant found == Collected(workers[..k], partials, id)
      {
        assert workers[..k + 1][..k] == workers[..k];
        if (id, workers[k]) in partials {
          found := found + [partials[(id, workers[k])]];
        }
        k := k + 1;
      }
      assert workers[..k] == workers;
      fulfilled := fulfilled[id := Concat(found)];
    }

    /** In every reachable state, exactly the stored requests, once each, in order of arrival. */
    method Requests() returns (r: seq<Request>)
      ensures r == ReadAll(Storage())
      ensures IndexAgrees(hash, Storage()) ==>
                && |r| == |ids| && NoDup(r) && (forall q :: q in r <==> q in requests.Values)
                && forall k | 0 <= k < |ids| :: ids[k] in requests && r[k] == requests[ids[k]]
    {
      r := ReadIds(requests, ids);
      if IndexAgrees(hash, Storage()) { ReadAllFaithful(hash, Storage()); }
    }
  }

  // ---- What every reachable state satisfies ----

  /** The distinct authorised workers whose partial is stored. */
  function Attesters(p: Pool, id: Bytes): set<AccountId> { AttestersIn(p.workers, p.partials, id) }

  function AttestersIn(workers: seq<AccountId>, partials: map<(Bytes, AccountId), Bytes>, id: Bytes): set<AccountId> {
    set w | w in workers && (id, w) in partials
  }

  ghost predicate IndexAgrees(hash: Bytes -> Bytes, p: Pool) {
    && NoDup(p.ids) && Elements(p.ids) == p.requests.Keys
    && p.count == Min(|p.ids|, U64_MAX)
    && forall id | id in p.requests ::
         id == hash(p.requests[id].filename + p.requests[id].witnessHex + p.requests[id].location)
  }

  ghost predicate KeysKnown(p: Pool) {
    && (forall k | k in p.partials :: k.0 in p.requests && k.1 in p.workers)
    && p.counts.Keys <= p.requests.Keys
  }

  /** The stored count is the number of distinct authorised workers with a stored partial,
      never exceeds T, and is T exactly when the request is fulfilled. */
  ghost predicate CountExact(threshold: nat, p: Pool, id: Bytes) {
    && CountOf(p, id) == |Attesters(p, id)| <= threshold
    && (id in p.fulfilled <==> CountOf(p, id) == threshold)
  }

  ghost predicate CountsExact(threshold: nat, p: Pool) { forall id: Bytes :: CountExact(threshold, p, id) }

  ghost predicate ValuesExact(p: Pool) {
    forall id | id in p.fulfilled :: p.fulfilled[id] == Concat(Collected(p.workers, p.partials, id))
  }

  ghost predicate ThresholdKept(threshold: nat, p: Pool) {
    KeysKnown(p) && CountsExact(threshold, p) && ValuesExact(p)
  }

  ghost predicate Inv(hash: Bytes -> Bytes, threshold: nat, p: Pool) {
    IndexAgrees(hash, p) && ThresholdKept(threshold, p)
  }

  datatype Message = AddMessage(request: Request) | SubmitMessage(caller: AccountId, id: Bytes, attestation: Bytes)

  function Step(hash: Bytes -> Bytes, threshold: nat, p: Pool, m: Message): (Pool, Reply) {
    match m
    case AddMessage(r) => Add(hash, p, r)
    case SubmitMessage(caller, id, attestation) => Submit(threshold, p, caller, id, attestation)
  }

  function Run(hash: Bytes -> Bytes, threshold: nat, p: Pool, ms: seq<Message>): Pool {
    if ms == [] then p
    else Step(hash, threshold, Run(hash, threshold, p, ms[..|ms| - 1]), ms[|ms| - 1]).0
  }

  lemma {:induction false} CollectedDepends(workers: seq<AccountId>, p: map<(Bytes, AccountId), Bytes>,
                                            q: map<(Bytes, AccountId), Bytes>, id: Bytes)
    requires forall w | w in workers :: ((id, w) in p <==> (id, w) in q) && ((id, w) in p ==> p[(id, w)] == q[(id, w)])
    ensures Collected(workers, p, id) == Collected(workers, q, id)
  {
    if workers != [] { CollectedDepends(workers[..|workers| - 1], p, q, id); }
  }

  lemma AddAgrees(hash: Bytes -> Bytes, p: Pool, r: Request)
    requires IndexAgrees(hash, p)
    ensures IndexAgrees(hash, Add(hash, p, r).0)
  {
    var id, q := hash(Input(r)), Add(hash, p, r).0;
    if id !in p.requests {
      assert id !in p.ids by { assert id !in Elements(p.ids); }
      assert Elements(q.ids) == Elements(p.ids) + {id};
    }
  }

  lemma AddKeeps(hash: Bytes -> Bytes, threshold: nat, p: Pool, r: Request)
    requires Inv(hash, threshold, p)
    ensures Inv(hash, threshold, Add(hash, p, r).0)
  {
    var q := Add(hash, p, r).0;
    AddAgrees(hash, p, r);
    forall i: Bytes ensures CountExact(threshold, q, i) {
      assert CountExact(threshold, p, i);
      assert Attesters(q, i) == Attesters(p, i);
    }
  }

  lemma SubmitCount(threshold: nat, p: Pool, caller: AccountId, id: Bytes, attestation: Bytes, i: Bytes)
    requires 1 <= threshold <= U32_MAX && CountExact(threshold, p, i)
    ensures CountExact(threshold, Submit(threshold, p, caller, id, attestation).0, i)
  {
    var (q, reply) := Submit(threshold, p, caller, id, attestation);
    if reply == Ok {
      assert Attesters(q, i) == Attesters(p, i) + (if i == id then {caller} else {});
    }
  }

  lemma SubmitValues(threshold: nat, p: Pool, caller: AccountId, id: Bytes, attestation: Bytes)
    requires ValuesExact(p)
    ensures ValuesExact(Submit(threshold, p, caller, id, attestation).0)
  {
    var (q, reply) := Submit(threshold, p, caller, id, attestation);
    if reply == Ok {
      forall i | i in q.fulfilled && i != id
        ensures q.fulfilled[i] == Concat(Collected(q.workers, q.partials, i))
      {
        CollectedDepends(p.workers, p.partials, q.partials, i);
      }
    }
  }

  lemma SubmitKeeps(hash: Bytes -> Bytes, threshold: nat, p: Pool, caller: AccountId, id: Bytes, attestation: Bytes)
    requires 1 <= threshold <= U32_MAX && Inv(hash, threshold, p)
    ensures Inv(hash, threshold, Submit(threshold, p, caller, id, attestation).0)
  {
    var q := Submit(threshold, p, caller, id, attestation).0;
    forall i: Bytes ensures CountExact(threshold, q, i) {
      assert CountExact(threshold, p, i);
      SubmitCount(threshold, p, caller, id, attestation, i);
    }
    SubmitValues(threshold, p, caller, id, attestation);
  }

  lemma StepKeeps(hash: Bytes -> Bytes, threshold: nat, p: Pool, m: Message)
    requires 1 <= threshold <= U32_MAX && Inv(hash, threshold, p)
    ensures Inv(hash, threshold, Step(hash, threshold, p, m).0)
  {
    match m
    case AddMessage(r) => AddKeeps(hash, threshold, p, r);
    case SubmitMessage(caller, id, attestation) => SubmitKeeps(hash, threshold, p, caller, id, attestation);
  }

  /** Index agreement and the threshold, after any messages from any callers. */
  lemma {:induction false} Reachable(hash: Bytes -> Bytes, threshold: nat, workers: seq<AccountId>, ms: seq<Message>)
    requires 1 <= threshold <= U32_MAX
    ensures Inv(hash, threshold, Run(hash, threshold, New(workers), ms))
  {
    if ms == [] {
      var p := New(workers);
      forall id: Bytes ensures CountExact(threshold, p, id) { assert Attesters(p, id) == {}; }
    } else {
      Reachable(hash, threshold, workers, ms[..|ms| - 1]);
      StepKeeps(hash, threshold, Run(hash, threshold, New(workers), ms[..|ms| - 1]), ms[|ms| - 1]);
    }
  }

  // ---- What no message undoes ----

  ghost predicate Within<K, V>(m: map<K, V>, n: map<K, V>) {
    m.Keys <= n.Keys && forall k | k in m :: m[k] == n[k]
  }

  /** Ids are only appended; stored requests, partials and results stay as they are, and a
      fulfilled request collects no further partial. */
  ghost predicate Grows(p: Pool, q: Pool) {
    && p.ids <= q.ids && p.workers == q.workers
    && Within(p.requests, q.requests) && Within(p.partials, q.partials) && Within(p.fulfilled, q.fulfilled)
    && forall k | k in q.partials && k.0 in p.fulfilled :: k in p.partials
  }

  lemma StepGrows(hash: Bytes -> Bytes, threshold: nat, p: Pool, m: Message)
    ensures Grows(p, Step(hash, threshold, p, m).0)
  {
  }

  /** Nothing a message or a run of messages does is ever undone by a later one. */
  lemma {:induction false} Permanent(hash: Bytes -> Bytes, threshold: nat, p: Pool, ms: seq<Message>)
    ensures Grows(p, Run(hash, threshold, p, ms))
  {
    if ms != [] {
      Permanent(hash, threshold, p, ms[..|ms| - 1]);
      StepGrows(hash, threshold, Run(hash, threshold, p, ms[..|ms| - 1]), ms[|ms| - 1]);
    }
  }

  /** A message that answers with an error leaves the storage as it was, and one that
      succeeds changes it. */
  lemma ErrIffUnchanged(hash: Bytes -> Bytes, threshold: nat, p: Pool, m: Message)
    requires Inv(hash, threshold, p)
    ensures Step(hash, threshold, p, m).1.Err? <==> Step(hash, threshold, p, m).0 == p
  {
    var (q, reply) := Step(hash, threshold, p, m);
    if reply == Ok {
      match m
      case AddMessage(r) => assert |q.ids| == |p.ids| + 1;
      case SubmitMessage(caller, id, attestation) => assert (id, caller) in q.partials;
    }
  }

  /** A partial is taken in exactly when it comes from an authorised worker that has not
      attested this known request, and fewer than T have; then that worker is the one new
      attester, and the request becomes fulfilled exactly when it is the T-th. */
  lemma SubmitOkIff(hash: Bytes -> Bytes, threshold: nat, p: Pool, caller: AccountId, id: Bytes, attestation: Bytes)
    requires 1 <= threshold <= U32_MAX && Inv(hash, threshold, p)
    ensures var (q, reply) := Submit(threshold, p, caller, id, attestation);
            && (reply == Ok <==>
                  caller in p.workers && id in p.requests && |Attesters(p, id)| < threshold &&
                      caller !in Attesters(p, id))
            && (reply == Ok ==>
                  && Attesters(q, id) == Attesters(p, id) + {caller} && q.partials[(id, caller)] == attestation
                  && (id in q.fulfilled <==> |Attesters(p, id)| == threshold - 1))
  {
    var (q, reply) := Submit(threshold, p, caller, id, attestation);
    assert CountExact(threshold, p, id);
    if reply == Ok { assert Attesters(q, id) == Attesters(p, id) + {caller}; }
  }

  /** Why a partial is refused, the reasons being checked in this order. */
  lemma SubmitRefused(hash: Bytes -> Bytes, threshold: nat, p: Pool, caller: AccountId, id: Bytes, attestation: Bytes)
    requires 1 <= threshold <= U32_MAX && Inv(hash, threshold, p)
    ensures var reply := Submit(threshold, p, caller, id, attestation).1;
            && (reply == Err(Unauthorized) <==> caller !in p.workers)
            && (reply == Err(RequestNotFound) <==> caller in p.workers && id !in p.requests)
            && (reply == Err(AlreadyFulfilled) <==>
                  caller in p.workers && id in p.requests && |Attesters(p, id)| == threshold)
            && (reply == Err(AlreadyAttested) <==>
                  id in p.requests && |Attesters(p, id)| < threshold && caller in Attesters(p, id))
  {
    assert CountExact(threshold, p, id);
  }

  /** Submitting for one request leaves every other request's attesters and result alone. */
  lemma SubmitLocal(threshold: nat, p: Pool, caller: AccountId, id: Bytes, attestation: Bytes, other: Bytes)
    requires other != id
    ensures var q := Submit(threshold, p, caller, id, attestation).0;
            && Attesters(q, other) == Attesters(p, other)
            && (other in q.fulfilled <==> other in p.fulfilled)
            && (other in p.fulfilled ==> q.fulfilled[other] == p.fulfilled[other])
  {
    assert Attesters(Submit(threshold, p, caller, id, attestation).0, other) == Attesters(p, other);
  }

  // ---- Reading, and which requests are taken in ----

  lemma {:induction false} ReadIdsAll(requests: map<Bytes, Request>, ids: seq<Bytes>)
    requires forall id | id in ids :: id in requests
    ensures |ReadIds(requests, ids)| == |ids|
    ensures forall k | 0 <= k < |ids| :: ReadIds(requests, ids)[k] == requests[ids[k]]
  {
    if ids != [] {
      ReadIdsAll(requests, ids[1..]);
      var tail := ReadIds(requests, ids[1..]);
      forall k | 0 <= k < |ids| ensures ReadIds(requests, ids)[k] == requests[ids[k]] {
        if k > 0 { assert ids[k] == ids[1..][k - 1]; }
      }
    }
  }

  /** `read_all` drops nothing, keeps the order of arrival, and repeats no request. */
  lemma ReadAllFaithful(hash: Bytes -> Bytes, p: Pool)
    requires IndexAgrees(hash, p)
    ensures |ReadAll(p)| == |p.ids| && NoDup(ReadAll(p))
    ensures forall k | 0 <= k < |p.ids| :: p.ids[k] in p.requests && ReadAll(p)[k] == p.requests[p.ids[k]]
    ensures forall r :: r in ReadAll(p) <==> r in p.requests.Values
  {
    assert forall id | id in p.ids :: id in Elements(p.ids);
    ReadIdsAll(p.requests, p.ids);
    forall r | r in p.requests.Values ensures r in ReadAll(p) {
      var id :| id in p.requests && p.requests[id] == r;
      assert id in Elements(p.ids);
      var k :| 0 <= k < |p.ids| && p.ids[k] == id;
      assert ReadAll(p)[k] == r;
    }
    forall r | r in ReadAll(p) ensures r in p.requests.Values {
      var k :| 0 <= k < |p.ids| && ReadAll(p)[k] == r;
      assert p.ids[k] in p.requests && p.requests[p.ids[k]] == r;
    }
  }

  /** Later reads extend earlier ones. */
  lemma ReadAllGrows(hash: Bytes -> Bytes, p: Pool, q: Pool)
    requires IndexAgrees(hash, p) && IndexAgrees(hash, q) && Grows(p, q)
    ensures ReadAll(p) <= ReadAll(q)
  {
    ReadAllFaithful(hash, p);
    ReadAllFaithful(hash, q);
    forall k | 0 <= k < |p.ids| ensures ReadAll(p)[k] == ReadAll(q)[k] {
      assert p.ids[k] == q.ids[k];
    }
  }

  lemma StepReads(hash: Bytes -> Bytes, threshold: nat, p: Pool, m: Message)
    requires 1 <= threshold <= U32_MAX && Inv(hash, threshold, p)
    ensures var q := Step(hash, threshold, p, m).0; Inv(hash, threshold, q) && ReadAll(p) <= ReadAll(q)
  {
    StepKeeps(hash, threshold, p, m);
    StepGrows(hash, threshold, p, m);
    ReadAllGrows(hash, p, Step(hash, threshold, p, m).0);
  }

  /** A request taken in stays in every later read. */
  lemma AddedStays(hash: Bytes -> Bytes, p: Pool, q: Pool, r: Request)
    requires Add(hash, p, r).1 == Ok && IndexAgrees(hash, q) && Grows(Add(hash, p, r).0, q)
    ensures r in ReadAll(q)
  {
    ReadAllFaithful(hash, q);
    var id := hash(r.filename + r.witnessHex + r.location);
    assert id in q.requests && q.requests[id] == r;
    assert r in q.requests.Values;
  }

  /** The hash tells the fields of r, run together, from those of the requests in `rs`. */
  ghost predicate FieldsApart(hash: Bytes -> Bytes, rs: set<Request>, r: Request) {
    forall s | s in rs ::
      hash(s.filename + s.witnessHex + s.location) == hash(r.filename + r.witnessHex + r.location) ==>
        s.filename + s.witnessHex + s.location == r.filename + r.witnessHex + r.location
  }

  /** No stored request has the same three fields run together. */
  ghost predicate NewFields(p: Pool, r: Request) {
    forall s | s in p.requests.Values ::
      s.filename + s.witnessHex + s.location != r.filename + r.witnessHex + r.location
  }

  /** A request is taken in exactly when no stored request has the same three fields run
      together, where the field boundaries lie making no difference. It is then the one new
      request, last in every read; otherwise the storage stays as it is. */
  lemma AddOkIff(hash: Bytes -> Bytes, p: Pool, r: Request)
    requires IndexAgrees(hash, p) && FieldsApart(hash, p.requests.Values, r)
    ensures var (q, reply) := Add(hash, p, r);
            && (reply == Ok <==> NewFields(p, r)) && (reply != Ok ==> (q, reply) == (p, Err(RequestAlreadyExists)))
            && (reply == Ok ==> q.requests.Values == p.requests.Values + {r} && ReadAll(q) == ReadAll(p) + [r])
  {
    var id := hash(r.filename + r.witnessHex + r.location);
    if id in p.requests {
      assert p.requests[id] in p.requests.Values;
    }
    if s :| s in p.requests.Values
            && s.filename + s.witnessHex + s.location == r.filename + r.witnessHex + r.location
    {
      var i :| i in p.requests && p.requests[i] == s;
    }
    if Add(hash, p, r).1 == Ok { AddedLast(hash, p, r); }
  }

  lemma AddedLast(hash: Bytes -> Bytes, p: Pool, r: Request)
    requires IndexAgrees(hash, p) && Add(hash, p, r).1 == Ok
    ensures var q := Add(hash, p, r).0;
            && IndexAgrees(hash, q) && q.requests.Values == p.requests.Values + {r}
            && ReadAll(q) == ReadAll(p) + [r]
  {
    var q, id := Add(hash, p, r).0, hash(r.filename + r.witnessHex + r.location);
    AddAgrees(hash, p, r);
    ReadExtended(hash, p, q, id);
    ValuesAdded(p.requests, id, r);
  }

  lemma ReadExtended(hash: Bytes -> Bytes, p: Pool, q: Pool, id: Bytes)
    requires IndexAgrees(hash, p) && IndexAgrees(hash, q) && Grows(p, q) && q.ids == p.ids + [id] && id in q.requests
    ensures ReadAll(q) == ReadAll(p) + [q.requests[id]]
  {
    hide ReadAll, IndexAgrees;
    ReadAllGrows(hash, p, q);
    ReadAllFaithful(hash, p);
    ReadAllFaithful(hash, q);
    assert q.ids[|p.ids|] == id;
  }

  lemma ValuesAdded(requests: map<Bytes, Request>, id: Bytes, r: Request)
    requires id !in requests
    ensures requests[id := r].Values == requests.Values + {r}
  {
    var more := requests[id := r];
    forall x | x in requests.Values + {r} ensures x in more.Values {
      if x == r {
        assert more[id] == r;
      } else {
        var i :| i in requests && requests[i] == x;
        assert more[i] == x;
      }
    }
  }

  /** Requests for the same file with the same witness from different locations are different
      requests: both are taken in, if the hash tells their bytes from each other and from those
      of the requests stored. */
  lemma LocationsApart(hash: Bytes -> Bytes, p: Pool, filename: Bytes, witnessHex: Bytes, here: Bytes, there: Bytes)
    requires here != there
    requires var r, s := Request(filename, witnessHex, here), Request(filename, witnessHex, there);
             && IndexAgrees(hash, p) && NewFields(p, r) && NewFields(p, s)
             && FieldsApart(hash, p.requests.Values, r) && FieldsApart(hash, p.requests.Values + {r}, s)
    ensures var r, s := Request(filename, witnessHex, here), Request(filename, witnessHex, there);
            var (q, first) := Add(hash, p, r);
            first == Ok && Add(hash, q, s).1 == Ok && ReadAll(Add(hash, q, s).0) == ReadAll(p) + [r, s]
  {
    var r, s := Request(filename, witnessHex, here), Request(filename, witnessHex, there);
    var q := Add(hash, p, r).0;
    AddOkIff(hash, p, r);
    AddedLast(hash, p, r);
    var front := filename + witnessHex;
    assert (front + here)[|front|..] == here && (front + there)[|front|..] == there;
    AddOkIff(hash, q, s);
    assert ReadAll(p) + [r] + [s] == ReadAll(p) + [r, s];
  }

  /** But where one field ends and the next begins is not hashed: whatever the hash, a request
      shuts out every other one that differs from it in a field boundary alone. */
  lemma DifferentRequestsCollide(hash: Bytes -> Bytes, p: Pool, a: Bytes, b: Bytes, c: Bytes, x: Bytes)
    requires x != []
    ensures var r, s, t := Request(a + x, b, c), Request(a, x + b, c), Request(a, x, b + c);
            && r != s && Add(hash, Add(hash, p, r).0, s).1 == Err(RequestAlreadyExists)
            && (b != [] ==> s != t) && Add(hash, Add(hash, p, s).0, t).1 == Err(RequestAlreadyExists)
  {
    assert a + x + b + c == a + (x + b) + c == a + x + (b + c);
    assert |a + x| != |a| && (b != [] ==> |x + b| != |x|);
  }

  // ---- The finalised value ----

  lemma {:induction false} ConcatSplits(a: seq<Bytes>, b: seq<Bytes>)
    ensures Concat(a + b) == Concat(a) + Concat(b)
  {
    if a == [] {
      assert a + b == b;
    } else {
      assert (a + b)[1..] == a[1..] + b;
      ConcatSplits(a[1..], b);
    }
  }

  lemma {:induction false} CollectedSplits(v: seq<AccountId>, w: seq<AccountId>,
                                           partials: map<(Bytes, AccountId), Bytes>, id: Bytes)
    ensures Collected(v + w, partials, id) == Collected(v, partials, id) + Collected(w, partials, id)
  {
    if w == [] {
      assert v + w == v;
    } else {
      var n := |w| - 1;
      assert (v + w)[..|v + w| - 1] == v + w[..n];
      CollectedSplits(v, w[..n], partials, id);
    }
  }

  /** The value of a list of workers is that of its front followed by that of its rest, and a
      single worker's is its stored partial, or nothing: worker-list order, whatever the partials. */
  lemma ValueInListOrder(v: seq<AccountId>, x: AccountId, w: seq<AccountId>,
                         partials: map<(Bytes, AccountId), Bytes>, id: Bytes)
    ensures Concat(Collected([], partials, id)) == []
    ensures Concat(Collected(v + [x] + w, partials, id)) ==
            Concat(Collected(v, partials, id)) + (if (id, x) in partials then partials[(id, x)] else [])
            + Concat(Collected(w, partials, id))
  {
    var own := if (id, x) in partials then [partials[(id, x)]] else [];
    CollectedSplits(v + [x], w, partials, id);
    CollectedSplits(v, [x], partials, id);
    assert [x][..0] == [] && Collected([x], partials, id) == own;
    ConcatSplits(Collected(v, partials, id) + own, Collected(w, partials, id));
    ConcatSplits(Collected(v, partials, id), own);
    assert own != [] ==> own[1..] == [] && Concat(own) == own[0];
  }

  ghost predicate ListedOnce(workers: seq<AccountId>, w: AccountId) {
    forall i, j | 0 <= i < j < |workers| :: !(workers[i] == w && workers[j] == w)
  }

  /** Adding a worker at the end of the list. */
  lemma AttestersExtended(workers: seq<AccountId>, partials: map<(Bytes, AccountId), Bytes>, id: Bytes)
    requires workers != []
    ensures var x := workers[|workers| - 1];
            AttestersIn(workers, partials, id) == AttestersIn(workers[..|workers| - 1], partials, id) +
                (if (id, x) in partials then {x} else {})
  {
    var n := |workers| - 1;
    assert workers == workers[..n] + [workers[n]];
  }

  lemma {:induction false} CollectedSize(workers: seq<AccountId>, partials: map<(Bytes, AccountId), Bytes>, id: Bytes)
    ensures |Collected(workers, partials, id)| >= |AttestersIn(workers, partials, id)|
    ensures |Collected(workers, partials, id)| == |AttestersIn(workers, partials, id)| <==>
            forall w | w in AttestersIn(workers, partials, id) :: ListedOnce(workers, w)
  {
    if workers == [] {
      assert AttestersIn(workers, partials, id) == {};
    } else {
      var n := |workers| - 1;
      var ws, x := workers[..n], workers[n];
      CollectedSize(ws, partials, id);
      AttestersExtended(workers, partials, id);
      var a := AttestersIn(ws, partials, id);
      forall w | w in a && w != x ensures ListedOnce(workers, w) <==> ListedOnce(ws, w) { OnceExtended(workers, w); }
      if x in a {
        ListedAgain(workers);
      } else if (id, x) in partials {
        assert x !in ws;
        assert ListedOnce(workers, x);
      }
    }
  }

  lemma ListedAgain(workers: seq<AccountId>)
    requires workers != [] && workers[|workers| - 1] in workers[..|workers| - 1]
    ensures !ListedOnce(workers, workers[|workers| - 1])
  {
    var n := |workers| - 1;
    var i :| 0 <= i < n && workers[..n][i] == workers[n];
    assert workers[i] == workers[n];
  }

  lemma OnceExtended(workers: seq<AccountId>, w: AccountId)
    requires workers != [] && workers[|workers| - 1] != w
    ensures ListedOnce(workers, w) <==> ListedOnce(workers[..|workers| - 1], w)
  {
    var ws := workers[..|workers| - 1];
    if ListedOnce(ws, w) {
      forall i, j | 0 <= i < j < |workers| ensures !(workers[i] == w && workers[j] == w) {
        if j < |ws| { assert ws[i] == workers[i] && ws[j] == workers[j]; }
      }
    }
  }

  /** A fulfilled request's value is made of exactly T partials if and only if no attester
      is listed twice among the authorised workers; otherwise it is made of more. */
  lemma FulfilledFromThreshold(hash: Bytes -> Bytes, threshold: nat, p: Pool, id: Bytes)
    requires Inv(hash, threshold, p) && id in p.fulfilled
    ensures p.fulfilled[id] == Concat(Collected(p.workers, p.partials, id))
    ensures |Collected(p.workers, p.partials, id)| >= threshold
    ensures |Collected(p.workers, p.partials, id)| == threshold <==>
            forall w | w in Attesters(p, id) :: ListedOnce(p.workers, w)
  {
    CollectedSize(p.workers, p.partials, id);
    assert CountExact(threshold, p, id);
  }

  /** A worker listed twice counts twice: with a threshold of one, its single partial makes a
      value of two. */
  lemma ListedTwiceCountsTwice(hash: Bytes -> Bytes, w: AccountId, r: Request, a: Bytes)
    ensures var id := hash(r.filename + r.witnessHex + r.location);
            var p := Run(hash, 1, New([w, w]), [AddMessage(r), SubmitMessage(w, id, a)]);
            id in p.fulfilled && p.fulfilled[id] == a + a
  {
    var id := hash(r.filename + r.witnessHex + r.location);
    var ms := [AddMessage(r), SubmitMessage(w, id, a)];
    var added := Add(hash, New([w, w]), r).0;
    assert ms[..1] == [AddMessage(r)] && ms[..1][..0] == [];
    assert Run(hash, 1, New([w, w]), ms[..1]) == added;
    var partials := map[(id, w) := a];
    assert [w, w][..1] == [w] && [w][..0] == [];
    assert Collected([w], partials, id) == [a];
    assert Collected([w, w], partials, id) == [a, a];
    assert [a, a][1..] == [a] && [a][1..] == [];
    assert Concat([a]) == a;
  }

  // ---- The order of submissions ----

  type Submission = (AccountId, Bytes)

  function SubmitAll(threshold: nat, p: Pool, id: Bytes, subs: seq<Submission>): Pool {
    if subs == [] then p
    else
      var (w, a) := subs[|subs| - 1];
      Submit(threshold, SubmitAll(threshold, p, id, subs[..|subs| - 1]), w, id, a).0
  }

  ghost predicate DistinctWorkers(subs: seq<Submission>) {
    forall i, j | 0 <= i < j < |subs| :: subs[i].0 != subs[j].0
  }

  ghost function Filed(p: Pool, id: Bytes, subs: seq<Submission>): map<(Bytes, AccountId), Bytes> {
    if subs == [] then p.partials
    else Filed(p, id, subs[..|subs| - 1])[(id, subs[|subs| - 1].0) := subs[|subs| - 1].1]
  }

  /** The state a batch of submissions leads to, told without an order. */
  ghost function AfterBatch(threshold: nat, p: Pool, id: Bytes, filed: map<(Bytes, AccountId), Bytes>, n: nat): Pool {
    var q := p.(partials := filed);
    if n == 0 then q
    else
      var c := CountOf(p, id) + n;
      var r := q.(counts := p.counts[id := c]);
      if c == threshold then Finalize(r, id) else r
  }

  /** Submissions that can all go through: open request, authorised workers, no repeats. */
  ghost predicate Admissible(threshold: nat, p: Pool, id: Bytes, subs: seq<Submission>) {
    && id in p.requests && DistinctWorkers(subs)
    && (forall k | 0 <= k < |subs| :: subs[k].0 in p.workers && (id, subs[k].0) !in p.partials)
    && CountOf(p, id) + |subs| <= threshold
  }

  ghost predicate FiledBy(id: Bytes, subs: seq<Submission>, k: (Bytes, AccountId)) {
    exists i :: 0 <= i < |subs| && k == (id, subs[i].0)
  }

  lemma FiledByLast(id: Bytes, subs: seq<Submission>, k: (Bytes, AccountId))
    requires subs != []
    ensures FiledBy(id, subs, k) <==> FiledBy(id, subs[..|subs| - 1], k) || k == (id, subs[|subs| - 1].0)
  {
    var init := subs[..|subs| - 1];
    if i :| 0 <= i < |init| && k == (id, init[i].0) { assert k == (id, subs[i].0); }
    if i :| 0 <= i < |subs| && k == (id, subs[i].0) { assert i < |init| ==> k == (id, init[i].0); }
  }

  lemma {:induction false} FiledKey(p: Pool, id: Bytes, subs: seq<Submission>, k: (Bytes, AccountId))
    ensures k in Filed(p, id, subs) <==> k in p.partials || FiledBy(id, subs, k)
    ensures k in p.partials && !FiledBy(id, subs, k) ==> Filed(p, id, subs)[k] == p.partials[k]
  {
    if subs != [] {
      FiledKey(p, id, subs[..|subs| - 1], k);
      FiledByLast(id, subs, k);
    }
  }

  lemma {:induction false} FiledValue(p: Pool, id: Bytes, subs: seq<Submission>, i: nat)
    requires DistinctWorkers(subs) && i < |subs|
    ensures (id, subs[i].0) in Filed(p, id, subs) && Filed(p, id, subs)[(id, subs[i].0)] == subs[i].1
  {
    if i < |subs| - 1 {
      assert subs[..|subs| - 1][i] == subs[i];
      FiledValue(p, id, subs[..|subs| - 1], i);
    }
  }

  lemma {:induction false} BatchResult(hash: Bytes -> Bytes, threshold: nat, p: Pool, id: Bytes, subs: seq<Submission>)
    requires 1 <= threshold <= U32_MAX && Inv(hash, threshold, p) && Admissible(threshold, p, id, subs)
    ensures SubmitAll(threshold, p, id, subs) == AfterBatch(threshold, p, id, Filed(p, id, subs), |subs|)
  {
    if subs == [] {
    } else {
      var n := |subs| - 1;
      var init := subs[..n];
      BatchResult(hash, threshold, p, id, init);
      var (w, a) := subs[n];
      FiledKey(p, id, init, (id, w));
      forall i | 0 <= i < n ensures init[i].0 != w { assert subs[i].0 != subs[n].0; }
      assert id !in p.fulfilled by { assert CountExact(threshold, p, id); }
      BatchStep(threshold, p, id, Filed(p, id, init), n, w, a);
    }
  }

  lemma BatchStep(threshold: nat, p: Pool, id: Bytes, filed: map<(Bytes, AccountId), Bytes>, n: nat, w: AccountId,
                  a: Bytes)
    requires w in p.workers && id in p.requests && id !in p.fulfilled && (id, w) !in filed
    requires CountOf(p, id) + n < threshold <= U32_MAX
    ensures Submit(threshold, AfterBatch(threshold, p, id, filed, n), w, id, a).0
         == AfterBatch(threshold, p, id, filed[(id, w) := a], n + 1)
  {
    var q := AfterBatch(threshold, p, id, filed, n);
    var c := CountOf(p, id) + n;
    assert CountOf(q, id) == c;
    assert q.counts[id := c + 1] == p.counts[id := c + 1];
  }

  // ---- Who gets through ----

  predicate SubmittedBy(subs: seq<Submission>, w: AccountId) { exists i :: 0 <= i < |subs| && subs[i].0 == w }

  /** An authorised worker whose partial is not stored yet. */
  predicate Fresh(p: Pool, id: Bytes, w: AccountId) { w in p.workers && (id, w) !in p.partials }

  /** The first submission of each fresh worker, in order. */
  function FirstSubmissions(p: Pool, id: Bytes, subs: seq<Submission>): seq<Submission> {
    if subs == [] then []
    else
      var before, last := subs[..|subs| - 1], subs[|subs| - 1];
      FirstSubmissions(p, id, before) + (if Fresh(p, id, last.0) && !SubmittedBy(before, last.0) then [last] else [])
  }

  /** How many partials a request still takes. */
  function Room(threshold: nat, p: Pool, id: Bytes): nat {
    if id in p.requests && CountOf(p, id) < threshold then threshold - CountOf(p, id) else 0
  }

  /** The submissions that get through: as many first submissions as there is room for. */
  function Winners(threshold: nat, p: Pool, id: Bytes, subs: seq<Submission>): seq<Submission> {
    var first := FirstSubmissions(p, id, subs);
    first[..Min(|first|, Room(threshold, p, id))]
  }

  lemma SubmittedLast(subs: seq<Submission>, w: AccountId)
    requires subs != []
    ensures SubmittedBy(subs, w) <==> SubmittedBy(subs[..|subs| - 1], w) || w == subs[|subs| - 1].0
  {
    var init := subs[..|subs| - 1];
    if i :| 0 <= i < |init| && init[i].0 == w { assert subs[i].0 == w; }
    if i :| 0 <= i < |subs| && subs[i].0 == w { assert i < |init| ==> init[i].0 == w; }
  }

  lemma {:induction false} FirstFacts(p: Pool, id: Bytes, subs: seq<Submission>)
    ensures var first := FirstSubmissions(p, id, subs);
            DistinctWorkers(first) && forall w :: SubmittedBy(first, w) <==> Fresh(p, id, w) && SubmittedBy(subs, w)
  {
    if subs != [] {
      var before, last := subs[..|subs| - 1], subs[|subs| - 1];
      FirstFacts(p, id, before);
      var f, first := FirstSubmissions(p, id, before), FirstSubmissions(p, id, subs);
      if first != f {
        assert first[..|first| - 1] == f;
        forall k | 0 <= k < |f| ensures f[k].0 != last.0 { assert SubmittedBy(f, f[k].0); }
      }
      forall w ensures SubmittedBy(first, w) <==> Fresh(p, id, w) && SubmittedBy(subs, w) {
        SubmittedLast(subs, w);
        if first != f { SubmittedLast(first, w); }
      }
    }
  }

  lemma WinnersAdmissible(hash: Bytes -> Bytes, threshold: nat, p: Pool, id: Bytes, subs: seq<Submission>)
    requires Inv(hash, threshold, p) && id in p.requests
    ensures Admissible(threshold, p, id, Winners(threshold, p, id, subs))
  {
    FirstFacts(p, id, subs);
    assert CountExact(threshold, p, id);
    var first := FirstSubmissions(p, id, subs);
    forall k | 0 <= k < |first| ensures Fresh(p, id, first[k].0) { assert SubmittedBy(first, first[k].0); }
  }

  /** What a batch that gets through leaves behind. */
  lemma BatchFacts(hash: Bytes -> Bytes, threshold: nat, p: Pool, id: Bytes, subs: seq<Submission>, w: AccountId)
    requires 1 <= threshold <= U32_MAX && Inv(hash, threshold, p) && Admissible(threshold, p, id, subs)
    ensures var q := SubmitAll(threshold, p, id, subs);
            && q.workers == p.workers && id in q.requests
            && (id in q.fulfilled <==> |subs| == Room(threshold, p, id))
            && ((id, w) in q.partials <==> (id, w) in p.partials || SubmittedBy(subs, w))
  {
    BatchResult(hash, threshold, p, id, subs);
    FiledKey(p, id, subs, (id, w));
    assert CountExact(threshold, p, id);
    assert FiledBy(id, subs, (id, w)) <==> SubmittedBy(subs, w) by {
      if i :| 0 <= i < |subs| && subs[i].0 == w { assert (id, w) == (id, subs[i].0); }
    }
  }

  lemma {:induction false} Unknown(threshold: nat, p: Pool, id: Bytes, subs: seq<Submission>)
    requires id !in p.requests
    ensures SubmitAll(threshold, p, id, subs) == p
  {
    if subs != [] { Unknown(threshold, p, id, subs[..|subs| - 1]); }
  }

  /** Any submissions whatever - from strangers, repeated, too many - come to exactly what the
      winners come to. */
  lemma {:induction false} FirstWin(hash: Bytes -> Bytes, threshold: nat, p: Pool, id: Bytes, subs: seq<Submission>)
    requires 1 <= threshold <= U32_MAX && Inv(hash, threshold, p)
    ensures SubmitAll(threshold, p, id, subs) == SubmitAll(threshold, p, id, Winners(threshold, p, id, subs))
  {
    if id !in p.requests {
      Unknown(threshold, p, id, subs);
      Unknown(threshold, p, id, Winners(threshold, p, id, subs));
    } else if subs != [] {
      var before, last := subs[..|subs| - 1], subs[|subs| - 1];
      FirstWin(hash, threshold, p, id, before);
      FirstWinStep(hash, threshold, p, id, subs);
    }
  }

  lemma FirstWinStep(hash: Bytes -> Bytes, threshold: nat, p: Pool, id: Bytes, subs: seq<Submission>)
    requires 1 <= threshold <= U32_MAX && Inv(hash, threshold, p) && id in p.requests && subs != []
    ensures var last := subs[|subs| - 1];
            var q := SubmitAll(threshold, p, id, Winners(threshold, p, id, subs[..|subs| - 1]));
            Submit(threshold, q, last.0, id, last.1).0 == SubmitAll(threshold, p, id, Winners(threshold, p, id, subs))
  {
    hide Inv, Submit, Winners, Admissible, FirstSubmissions, Room;
    var before, last := subs[..|subs| - 1], subs[|subs| - 1];
    var won, next := Winners(threshold, p, id, before), Winners(threshold, p, id, subs);
    var q := SubmitAll(threshold, p, id, won);
    WinnersAdmissible(hash, threshold, p, id, before);
    BatchFacts(hash, threshold, p, id, won, last.0);
    FirstFacts(p, id, before);
    NextWinner(threshold, p, id, subs);
    WinnersFit(threshold, p, id, before);
    if next == won {
      Refused(threshold, q, last.0, id, last.1);
    } else {
      assert next[..|next| - 1] == won;
    }
  }

  lemma WinnersFit(threshold: nat, p: Pool, id: Bytes, subs: seq<Submission>)
    ensures |Winners(threshold, p, id, subs)| <= Room(threshold, p, id)
  {
  }

  lemma Refused(threshold: nat, p: Pool, w: AccountId, id: Bytes, a: Bytes)
    requires w !in p.workers || id in p.fulfilled || (id, w) in p.partials
    ensures Submit(threshold, p, w, id, a).0 == p
  {
  }

  /** One more submission adds a winner if there is room, and it is a fresh worker's first. */
  lemma NextWinner(threshold: nat, p: Pool, id: Bytes, subs: seq<Submission>)
    requires subs != []
    ensures var before, last := subs[..|subs| - 1], subs[|subs| - 1];
            var won, next := Winners(threshold, p, id, before), Winners(threshold, p, id, subs);
            && (|won| < Room(threshold, p, id) ==> won == FirstSubmissions(p, id, before))
            && next == won + (if |won| < Room(threshold, p, id) && Fresh(p, id, last.0) && !SubmittedBy(before, last.0)
                              then [last] else [])
  {
  }

  lemma FiledSub(p: Pool, id: Bytes, subs: seq<Submission>, other: seq<Submission>)
    requires DistinctWorkers(subs) && DistinctWorkers(other) && Elements(subs) == Elements(other)
    ensures Within(Filed(p, id, subs), Filed(p, id, other))
  {
    var f, g := Filed(p, id, subs), Filed(p, id, other);
    forall k | k in f ensures k in g && f[k] == g[k] {
      FiledKey(p, id, subs, k);
      FiledKey(p, id, other, k);
      if i :| 0 <= i < |subs| && k == (id, subs[i].0) {
        assert subs[i] in Elements(other);
        var j :| 0 <= j < |other| && other[j] == subs[i];
        FiledValue(p, id, subs, i);
        FiledValue(p, id, other, j);
      } else {
        forall j | 0 <= j < |other| ensures k != (id, other[j].0) { assert other[j] in Elements(subs); }
      }
    }
  }

  lemma {:induction false} ElementsCount<T>(s: seq<T>)
    requires NoDup(s)
    ensures |Elements(s)| == |s|
  {
    if s != [] {
      var n := |s| - 1;
      ElementsCount(s[..n]);
      assert s == s[..n] + [s[n]];
      assert Elements(s) == Elements(s[..n]) + {s[n]};
    }
  }

  /** The order of submissions that all get through does not matter. */
  lemma SameBatch(hash: Bytes -> Bytes, threshold: nat, p: Pool, id: Bytes, subs: seq<Submission>,
                  other: seq<Submission>)
    requires 1 <= threshold <= U32_MAX && Inv(hash, threshold, p)
    requires Admissible(threshold, p, id, subs) && Admissible(threshold, p, id, other)
    requires Elements(subs) == Elements(other)
    ensures SubmitAll(threshold, p, id, subs) == SubmitAll(threshold, p, id, other)
  {
    ElementsCount(subs);
    ElementsCount(other);
    BatchResult(hash, threshold, p, id, subs);
    BatchResult(hash, threshold, p, id, other);
    FiledSub(p, id, subs, other);
    FiledSub(p, id, other, subs);
    assert Filed(p, id, subs) == Filed(p, id, other);
  }

  // ---- Submissions among other messages ----

  /** What the storage holds about one request. */
  datatype Standing = Standing(
    known: bool,
    workers: seq<AccountId>,
    partials: map<AccountId, Bytes>,
    count: nat,
    fulfilled: Option<Bytes>)

  function StandingOf(p: Pool, id: Bytes): Standing {
    Standing(id in p.requests, p.workers,
             map w | w in p.workers && (id, w) in p.partials :: p.partials[(id, w)],
             CountOf(p, id), if id in p.fulfilled then Some(p.fulfilled[id]) else None)
  }

  /** The submissions to one request among the messages of a run, in order. */
  function SubmissionsTo(id: Bytes, ms: seq<Message>): seq<Submission> {
    if ms == [] then []
    else
      var m := ms[|ms| - 1];
      SubmissionsTo(id, ms[..|ms| - 1]) + (if m.SubmitMessage? && m.id == id then [(m.caller, m.attestation)] else [])
  }

  function CollectedOf(workers: seq<AccountId>, partials: map<AccountId, Bytes>): seq<Bytes> {
    if workers == [] then []
    else
      var w := workers[|workers| - 1];
      CollectedOf(workers[..|workers| - 1], partials) + (if w in partials then [partials[w]] else [])
  }

  /** A submission, told through the standing of its request alone. */
  function SubmitStanding(threshold: nat, st: Standing, w: AccountId, a: Bytes): Standing {
    if w !in st.workers || !st.known || st.fulfilled.Some? || w in st.partials then st
    else
      var n := Min(st.count + 1, U32_MAX);
      var partials := st.partials[w := a];
      st.(partials := partials, count := n, fulfilled := if n >= threshold
          then Some(Concat(CollectedOf(st.workers, partials))) else None)
  }

  lemma {:induction false} CollectedStands(workers: seq<AccountId>, p: Pool, id: Bytes)
    requires forall w | w in workers :: w in p.workers
    ensures Collected(workers, p.partials, id) == CollectedOf(workers, StandingOf(p, id).partials)
  {
    if workers != [] { CollectedStands(workers[..|workers| - 1], p, id); }
  }

  lemma PartialStands(p: Pool, q: Pool, w: AccountId, id: Bytes, a: Bytes)
    requires w in p.workers && q.workers == p.workers && q.partials == p.partials[(id, w) := a]
    ensures StandingOf(q, id).partials == StandingOf(p, id).partials[w := a]
  {
  }

  /** A submission to a request depends on, and changes, that request's standing alone. */
  lemma SubmitStands(threshold: nat, p: Pool, w: AccountId, id: Bytes, a: Bytes)
    ensures StandingOf(Submit(threshold, p, w, id, a).0, id) == SubmitStanding(threshold, StandingOf(p, id), w, a)
  {
    var (q, reply) := Submit(threshold, p, w, id, a);
    assert w in p.workers ==> (w in StandingOf(p, id).partials <==> (id, w) in p.partials);
    if reply == Ok {
      PartialStands(p, q, w, id, a);
      CollectedStands(p.workers, q, id);
    }
  }

  lemma SubmitElsewhere(threshold: nat, p: Pool, w: AccountId, other: Bytes, a: Bytes, id: Bytes)
    requires other != id
    ensures StandingOf(Submit(threshold, p, w, other, a).0, id) == StandingOf(p, id)
  {
    var q := Submit(threshold, p, w, other, a).0;
    assert q.workers == p.workers && CountOf(q, id) == CountOf(p, id);
    assert forall v ::
        && ((id, v) in q.partials <==> (id, v) in p.partials)
        && ((id, v) in p.partials ==> q.partials[(id, v)] == p.partials[(id, v)]);
    assert StandingOf(q, id).partials == StandingOf(p, id).partials;
  }

  /** Every other message leaves the standing of a known request alone. */
  lemma OtherMessage(hash: Bytes -> Bytes, threshold: nat, p: Pool, id: Bytes, m: Message)
    requires id in p.requests && !(m.SubmitMessage? && m.id == id)
    ensures StandingOf(Step(hash, threshold, p, m).0, id) == StandingOf(p, id)
  {
    match m
    case AddMessage(r) =>
    case SubmitMessage(w, other, a) => SubmitElsewhere(threshold, p, w, other, a, id);
  }

  /** After any run, a request stands as if its own submissions had been the only messages. */
  lemma {:induction false} OwnSubmissionsOnly(hash: Bytes -> Bytes, threshold: nat, p: Pool, id: Bytes,
                                              ms: seq<Message>)
    requires id in p.requests
    ensures StandingOf(Run(hash, threshold, p, ms), id) ==
        StandingOf(SubmitAll(threshold, p, id, SubmissionsTo(id, ms)), id)
  {
    if ms != [] {
      var before, m := ms[..|ms| - 1], ms[|ms| - 1];
      OwnSubmissionsOnly(hash, threshold, p, id, before);
      Permanent(hash, threshold, p, before);
      var q, r := Run(hash, threshold, p, before), SubmitAll(threshold, p, id, SubmissionsTo(id, before));
      if m.SubmitMessage? && m.id == id {
        SubmitStands(threshold, q, m.caller, id, m.attestation);
        SubmitStands(threshold, r, m.caller, id, m.attestation);
        var subs := SubmissionsTo(id, ms);
        assert subs[..|subs| - 1] == SubmissionsTo(id, before);
      } else {
        OtherMessage(hash, threshold, q, id, m);
        assert SubmissionsTo(id, ms) == SubmissionsTo(id, before);
      }
    }
  }

  lemma FiledTells(p: Pool, q: Pool, r: Pool, id: Bytes, subs: seq<Submission>, other: seq<Submission>)
    requires q.workers == r.workers && q.partials == Filed(p, id, subs) && r.partials == Filed(p, id, other)
    requires StandingOf(q, id).partials == StandingOf(r, id).partials
    requires DistinctWorkers(subs) && DistinctWorkers(other)
    requires forall k | 0 <= k < |subs| :: subs[k].0 in q.workers && (id, subs[k].0) !in p.partials
    ensures Elements(subs) <= Elements(other)
  {
    forall x | x in subs ensures x in other {
      var i :| 0 <= i < |subs| && subs[i] == x;
      FiledValue(p, id, subs, i);
      assert x.0 in StandingOf(q, id).partials && StandingOf(q, id).partials[x.0] == x.1;
      assert (id, x.0) in r.partials && r.partials[(id, x.0)] == x.1;
      FiledKey(p, id, other, (id, x.0));
      var j :| 0 <= j < |other| && (id, x.0) == (id, other[j].0);
      FiledValue(p, id, other, j);
    }
  }

  /** What a request stands at tells who got through. */
  lemma StandingTells(hash: Bytes -> Bytes, threshold: nat, p: Pool, id: Bytes, subs: seq<Submission>,
                      other: seq<Submission>)
    requires 1 <= threshold <= U32_MAX && Inv(hash, threshold, p)
    requires Admissible(threshold, p, id, subs) && Admissible(threshold, p, id, other)
    requires StandingOf(SubmitAll(threshold, p, id, subs), id).partials
             == StandingOf(SubmitAll(threshold, p, id, other), id).partials
    ensures Elements(subs) <= Elements(other)
  {
    hide Inv, Filed, StandingOf;
    BatchResult(hash, threshold, p, id, subs);
    BatchResult(hash, threshold, p, id, other);
    FiledTells(p, SubmitAll(threshold, p, id, subs), SubmitAll(threshold, p, id, other), id, subs, other);
  }

  /** For any two lists of submissions to a request, in any order, with strangers, repeats and
      losers of the race: they end in the same storage exactly when the same submissions win. */
  lemma OrderIndependent(hash: Bytes -> Bytes, threshold: nat, p: Pool, id: Bytes, subs: seq<Submission>,
                         other: seq<Submission>)
    requires 1 <= threshold <= U32_MAX && Inv(hash, threshold, p)
    ensures SubmitAll(threshold, p, id, subs) == SubmitAll(threshold, p, id, other) <==>
            Elements(Winners(threshold, p, id, subs)) == Elements(Winners(threshold, p, id, other))
  {
    var a, b := Winners(threshold, p, id, subs), Winners(threshold, p, id, other);
    FirstWin(hash, threshold, p, id, subs);
    FirstWin(hash, threshold, p, id, other);
    if id in p.requests {
      WinnersAdmissible(hash, threshold, p, id, subs);
      WinnersAdmissible(hash, threshold, p, id, other);
      if Elements(a) == Elements(b) { SameBatch(hash, threshold, p, id, a, b); }
      if SubmitAll(threshold, p, id, a) == SubmitAll(threshold, p, id, b) {
        StandingTells(hash, threshold, p, id, a, b);
        StandingTells(hash, threshold, p, id, b, a);
      }
    } else {
      Unknown(threshold, p, id, a);
      Unknown(threshold, p, id, b);
    }
  }

  /** The same over whole runs from any state in which the request is known, the submissions to
      it standing anywhere among any other messages: its partials, its count and its fulfilled
      value end the same exactly when the same submissions win. */
  lemma OrderIndependentRuns(hash: Bytes -> Bytes, threshold: nat, p: Pool, id: Bytes, ms: seq<Message>,
                             other: seq<Message>)
    requires 1 <= threshold <= U32_MAX && Inv(hash, threshold, p) && id in p.requests
    ensures StandingOf(Run(hash, threshold, p, ms), id) == StandingOf(Run(hash, threshold, p, other), id) <==>
            Elements(Winners(threshold, p, id, SubmissionsTo(id, ms)))
            == Elements(Winners(threshold, p, id, SubmissionsTo(id, other)))
  {
    var subs, subs' := SubmissionsTo(id, ms), SubmissionsTo(id, other);
    var a, b := Winners(threshold, p, id, subs), Winners(threshold, p, id, subs');
    OwnSubmissionsOnly(hash, threshold, p, id, ms);
    OwnSubmissionsOnly(hash, threshold, p, id, other);
    FirstWin(hash, threshold, p, id, subs);
    FirstWin(hash, threshold, p, id, subs');
    WinnersAdmissible(hash, threshold, p, id, subs);
    WinnersAdmissible(hash, threshold, p, id, subs');
    if Elements(a) == Elements(b) { SameBatch(hash, threshold, p, id, a, b); }
    if StandingOf(SubmitAll(threshold, p, id, a), id) == StandingOf(SubmitAll(threshold, p, id, b), id) {
      StandingTells(hash, threshold, p, id, a, b);
      StandingTells(hash, threshold, p, id, b, a);
    }
  }

  /** So the order of a race decides: with a threshold of one, whoever of two workers submits
      first fulfils the request with its own partial. */
  lemma RaceIsDecidedByOrder(hash: Bytes -> Bytes, v: AccountId, w: AccountId, r: Request, a: Bytes, b: Bytes)
    requires v != w && a != b
    ensures var id := hash(r.filename + r.witnessHex + r.location);
            var p := Run(hash, 1, New([v, w]), [AddMessage(r), SubmitMessage(v, id, a), SubmitMessage(w, id, b)]);
            var q := Run(hash, 1, New([v, w]), [AddMessage(r), SubmitMessage(w, id, b), SubmitMessage(v, id, a)]);
            && id in p.fulfilled && p.fulfilled[id] == a && id in q.fulfilled && q.fulfilled[id] == b
  {
    Race(hash, [v, w], v, w, r, a, b);
    Race(hash, [v, w], w, v, r, b, a);
    assert [v, w][..1] == [v] && [v][..0] == [];
    var id := hash(r.filename + r.witnessHex + r.location);
    assert Collected([v], map[(id, v) := a], id) == [a] && Collected([v], map[(id, w) := b], id) == [];
    assert Collected([v, w], map[(id, v) := a], id) == [a] && Collected([v, w], map[(id, w) := b], id) == [b];
    assert [a][1..] == [] && [b][1..] == [];
  }

  lemma Race(hash: Bytes -> Bytes, workers: seq<AccountId>, v: AccountId, w: AccountId, r: Request, a: Bytes, b: Bytes)
    requires v in workers && w in workers && v != w
    ensures var id := hash(r.filename + r.witnessHex + r.location);
            var p := Run(hash, 1, New(workers), [AddMessage(r), SubmitMessage(v, id, a), SubmitMessage(w, id, b)]);
            id in p.fulfilled && p.fulfilled[id] == Concat(Collected(workers, map[(id, v) := a], id))
  {
    var id := hash(r.filename + r.witnessHex + r.location);
    var ms := [AddMessage(r), SubmitMessage(v, id, a), SubmitMessage(w, id, b)];
    assert ms[..2] == [AddMessage(r), SubmitMessage(v, id, a)];
    assert ms[..2][..1] == [AddMessage(r)] && ms[..2][..1][..0] == [];
    var added := Add(hash, New(workers), r).0;
    assert Run(hash, 1, New(workers), ms[..2][..1]) == added;
    var p := Submit(1, added, v, id, a).0;
    assert Run(hash, 1, New(workers), ms[..2]) == p;
    assert Submit(1, p, w, id, b).0 == p;
  }
}
