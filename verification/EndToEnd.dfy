/** From the command line of the encrypting client to the partial decryption: a file locked
    with passwords opens for exactly those who type them. */
module EndToEnd {
  import opened Basics
  import opened Intents
  import opened Gadgets
  import opened RequestPool
  import opened Stores
  import opened Wire
  import opened Worker
  import Network
  import Publishing
  import Registry = PredicateRegistry
  import Scale
  import Text
  import Utf8

  // ---- Passwords as intents ----

  /** What the intent language can carry as a password. */
  ghost predicate Writable(p: string) { !Text.Has(DELIMITER, p) && Balanced(p) }

  function PasswordClauses(ps: seq<string>): seq<Clause> {
    seq(|ps|, k requires 0 <= k < |ps| => Clause("Password", ps[k]))
  }

  /** `Password(p1) && Password(p2) && ...` */
  function IntentString(ps: seq<string>): string { Print(PasswordClauses(ps)) }

  function PasswordIntents(sha256: Bytes -> Bytes32, ps: seq<string>): (r: seq<Intent>)
    ensures |r| == |ps|
  {
    seq(|ps|, k requires 0 <= k < |ps| => Intent("Password", sha256(Utf8.Encode(ps[k])), Some(PasswordGadget(sha256))))
  }

  ghost predicate Knows(gadgets: Registered, sha256: Bytes -> Bytes32) {
    "Password" in gadgets && gadgets["Password"] == PasswordGadget(sha256)
  }

  lemma PasswordExpressible(p: string)
    requires Writable(p)
    ensures Expressible(Clause("Password", p))
  {
    NoAmp("Password");
  }

  /** Printed passwords parse to one intent each, stating the hash of that very password. */
  lemma PasswordsParse(gadgets: Registered, sha256: Bytes -> Bytes32, ps: seq<string>)
    requires Knows(gadgets, sha256) && ps != [] && forall p | p in ps :: Writable(p)
    ensures IntentsOf(gadgets, IntentString(ps)) == Done(PasswordIntents(sha256, ps))
  {
    var cs := PasswordClauses(ps);
    forall k | 0 <= k < |cs| ensures Expressible(cs[k]) { PasswordExpressible(ps[k]); }
    ParsePrint(cs);
    var intents := PasswordIntents(sha256, ps);
    forall k | 0 <= k < |cs| ensures BuildIntent(gadgets, cs[k]) == Done(intents[k]) {}
    IntentsOfDone(gadgets, IntentString(ps), intents);
  }

  /** SHA-256 tells the passwords and the words typed apart. */
  ghost predicate WordsApart(sha256: Bytes -> Bytes32, ps: seq<string>, words: seq<string>) {
    forall p, w | p in ps && w in words ::
      sha256(Utf8.Encode(w)) == sha256(Utf8.Encode(p)) ==> Utf8.Encode(w) == Utf8.Encode(p)
  }

  lemma PasswordVerdict(gadgets: Registered, sha256: Bytes -> Bytes32, at: nat, p: string, w: string)
    requires Knows(gadgets, sha256) && WordsApart(sha256, [p], [w])
    ensures var i := Intent("Password", sha256(Utf8.Encode(p)), None);
            Satisfied(gadgets, at, i, Utf8.Encode(w)) <==> w == p
  {
    assert p in [p] && w in [w];
    if sha256(Utf8.Encode(w)) == sha256(Utf8.Encode(p)) { Utf8.Injective(w, p); }
  }

  /** The conjunction accepts the right passwords in the right order, and nothing else. */
  lemma PasswordsAccepted(gadgets: Registered, sha256: Bytes -> Bytes32, heights: nat -> nat, ps: seq<string>,
                          words: seq<string>)
    requires Knows(gadgets, sha256) && WordsApart(sha256, ps, words)
    ensures Accepts(gadgets, heights, StripAll(PasswordIntents(sha256, ps)), BytesOf(words)) <==> words == ps
  {
    var intents := StripAll(PasswordIntents(sha256, ps));
    if |words| == |ps| {
      forall k: nat | k < |ps|
        ensures Satisfied(gadgets, heights(k), intents[k], BytesOf(words)[k]) <==> words[k] == ps[k]
      {
        assert ps[k] in ps && words[k] in words;
        PasswordVerdict(gadgets, sha256, heights(k), ps[k], words[k]);
      }
    }
  }

  // ---- The journey of a request ----

  /** What the decrypting client sends after the user has typed the witness string. */
  function TypedRequest(filename: Bytes, typed: string, location: Bytes): Request {
    Request(filename, EncodeWitnesses(SplitWitnesses(typed)), location)
  }

  /** A request that has been taken in reaches every later successful read of the pool as it
      was sent. */
  lemma RequestTravels(hash: Bytes -> Bytes, p: Pool, q: Pool, req: Request)
    requires SubmitRequest(hash, p, req).1 == Done(()) && IndexAgrees(hash, q)
    requires Grows(SubmitRequest(hash, p, req).0, q)
    ensures FetchRequests(q).Some? ==> req in FetchRequests(q).value
  {
    AddArrives(hash, p, req);
    AddedStays(hash, p, q, req);
    FetchFaithful(q);
  }

  /** What a worker needs besides an accepted witness in order to answer. */
  predicate Answerable(env: Worker.Env, index: nat, filename: Bytes, location: Bytes, ciphertext: Bytes) {
    && index < 256 && env.shareOf(index, ciphertext).Some? && env.reachable(location)
    && PartialDecryptionCodec().ok(PartialDecryption(filename, index, env.shareOf(index, ciphertext).value))
  }

  lemma OpensAs(env: Worker.Env, r: Registry.Registry, req: Request, cid: Bytes, intents: seq<Intent>,
                words: seq<string>)
    requires Witnesses().ok(BytesOf(words)) && req.witnessHex == EncodeWitnesses(words)
    requires GetIntent(env.cidValid, r, req.filename) == Done(Some((cid, intents)))
    ensures Open(env, r, req) == Some(Opened(cid, intents, Witnesses().enc(BytesOf(words))))
  {
    WitnessesRoundTrip(words);
  }

  lemma VerifiesAs(gadgets: Registered, sha256: Bytes -> Bytes32, heights: nat -> nat, ps: seq<string>,
                   words: seq<string>)
    requires Knows(gadgets, sha256) && WordsApart(sha256, ps, words) && Witnesses().ok(BytesOf(words))
    ensures var v := Verify(gadgets, heights, StripAll(PasswordIntents(sha256, ps)), Witnesses().enc(BytesOf(words)));
            v != Done(false) && (v == Done(true) <==> words == ps)
  {
    WitnessesLawful();
    Scale.Decodes(Witnesses(), BytesOf(words), []);
    VerifyExact(gadgets, heights, StripAll(PasswordIntents(sha256, ps)), Witnesses().enc(BytesOf(words)));
    PasswordsAccepted(gadgets, sha256, heights, ps, words);
  }

  lemma FinishesAs(env: Worker.Env, docs: Doc, index: nat, req: Request, cid: Bytes, ciphertext: Bytes)
    requires Answerable(env, index, req.filename, req.location, ciphertext)
    requires Fetch(env.cidText, docs, cid) == Done(Some(ciphertext))
    ensures Finish(env, docs, index, req, cid) == Seal(env, index, req, ciphertext)
    ensures Seal(env, index, req, ciphertext).Release?
  {
  }

  /** Once opened and with the ciphertext at hand, verification decides. */
  lemma VerdictOf(env: Worker.Env, r: Registry.Registry, heights: nat -> nat, docs: Doc, index: nat, req: Request,
                  o: Opened, sealed: Verdict)
    requires Open(env, r, req) == Some(o) && Finish(env, docs, index, req, o.cid) == sealed && sealed.Release?
    requires Verify(env.gadgets, heights, o.intents, o.raw) != Done(false)
    ensures Process(env, r, heights, docs, index, req) == sealed <==>
        Verify(env.gadgets, heights, o.intents, o.raw) == Done(true)
    ensures Process(env, r, heights, docs, index, req) == sealed || !Process(env, r, heights, docs, index, req).Release?
  {
    hide Open, Finish, Verify;
  }

  /** The verdict is to send this node's share of this ciphertext. */
  ghost predicate IsAnswer(env: Worker.Env, v: Verdict, filename: Bytes, index: nat, ciphertext: Bytes) {
    && v.Release? && index < 256 && env.shareOf(index, ciphertext).Some?
    && PartialDecryptionCodec().dec(v.message) ==
        Some((PartialDecryption(filename, index, env.shareOf(index, ciphertext).value), []))
  }

  /** Opened with these intents and these words, a request is answered exactly when the
      words are the passwords. */
  lemma Answered(env: Worker.Env, sha256: Bytes -> Bytes32, r: Registry.Registry, heights: nat -> nat, docs: Doc,
                 index: nat, req: Request, cid: Bytes, ciphertext: Bytes, ps: seq<string>, words: seq<string>)
    requires Knows(env.gadgets, sha256) && WordsApart(sha256, ps, words) && Witnesses().ok(BytesOf(words))
    requires req.witnessHex == EncodeWitnesses(words) && Answerable(env, index, req.filename, req.location, ciphertext)
    requires GetIntent(env.cidValid, r, req.filename) == Done(Some((cid, StripAll(PasswordIntents(sha256, ps)))))
    requires Fetch(env.cidText, docs, cid) == Done(Some(ciphertext))
    ensures var v := Process(env, r, heights, docs, index, req);
            if words == ps then IsAnswer(env, v, req.filename, index, ciphertext) else !v.Release?
  {
    var intents := StripAll(PasswordIntents(sha256, ps));
    OpensAs(env, r, req, cid, intents, words);
    VerifiesAs(env.gadgets, sha256, heights, ps, words);
    FinishesAs(env, docs, index, req, cid, ciphertext);
    SealedMessage(env, index, req, ciphertext);
    VerdictOf(env, r, heights, docs, index, req, Opened(cid, intents, Witnesses().enc(BytesOf(words))),
        Seal(env, index, req, ciphertext));
  }

  // ---- The whole way ----

  /** The worker's environment and the clients' agree on gadgets, CIDs and their spelling. */
  ghost predicate SameWorld(c: Publishing.Env, w: Worker.Env) {
    c.gadgets == w.gadgets && c.cidValid == w.cidValid && c.cidText == w.cidText
  }

  /** Nothing goes wrong in the foreign code with the ciphertexts added: SHA-256 has no
      collision among them, and their CIDs can be spelled and read. */
  ghost predicate SoundRun(c: Publishing.Env, steps: seq<Publishing.Step>) {
    && Publishing.CidsApart(c, Publishing.Exec(c, steps).added)
    && forall x | x in Publishing.Exec(c, steps).added :: c.cidValid(CidOf(c.sha256, x))
  }

  /** The name is registered, and its owner wrote these passwords. */
  ghost predicate LockedWith(s: Publishing.Shared, filename: Bytes, ps: seq<string>) {
    && ps != [] && (forall p | p in ps :: Writable(p))
    && filename in s.registry.entries && filename in s.origin && s.origin[filename].1 == IntentString(ps)
  }

  /** An owner's three steps, with whatever steps of others before, between and after: when
      the owner comes to register, the name is locked with these passwords and this ciphertext
      if the call can be encoded and the name is free at that very step; otherwise the registry
      stays as it is. */
  lemma OwnerLocks(c: Publishing.Env, steps: seq<Publishing.Step>, client: nat, filename: Bytes, ps: seq<string>,
                   before: seq<Publishing.Step>, ciphertext: Bytes, after: seq<Publishing.Step>)
    requires Knows(c.gadgets, c.sha256) && ps != [] && (forall p | p in ps :: Writable(p))
    requires client !in Publishing.Exec(c, steps).clients
    requires Publishing.AllForeign(client, before) && Publishing.AllForeign(client, after)
    ensures var run := steps + Publishing.OwnSteps(client, filename, IntentString(ps), before, ciphertext, after);
            var s, t := Publishing.Exec(c, run), Publishing.Exec(c, run + [Publishing.Register(client)]);
            if Lockable(c, s, filename, ps, ciphertext)
            then LockedWith(t, filename, ps) && t.origin[filename].0 == ciphertext
            else t.registry == s.registry && t.origin == s.origin
  {
    PasswordsParse(c.gadgets, c.sha256, ps);
    Publishing.OwnStepsRegister(c, steps, client, filename, IntentString(ps), before, ciphertext, after);
  }

  /** The name is free, and neither the ciphertext nor the call is too long to encode. */
  predicate Lockable(c: Publishing.Env, s: Publishing.Shared, filename: Bytes, ps: seq<string>, ciphertext: Bytes) {
    && AnnouncementCodec().ok(Announcement(Tag.Doc, ciphertext))
    && Registrable(filename, CidOf(c.sha256, ciphertext), PasswordIntents(c.sha256, ps))
    && filename !in s.registry.entries
  }

  lemma PasswordIntentLength(sha256: Bytes -> Bytes32, p: string)
    ensures |IntentCodec().enc(Intent("Password", sha256(Utf8.Encode(p)), Some(PasswordGadget(sha256))))| <= 74
  {
    Scale.BlobLength(Utf8.Encode("Password"));
    Scale.BlobLength(sha256(Utf8.Encode(p)));
    Scale.EncodeAllLength(Utf8.Char(), "Password", 4);
  }

  lemma IntentEncodable(statement: Bytes32)
    ensures IntentCodec().ok(Intent("Password", statement, None))
  {
    Scale.EncodeAllLength(Utf8.Char(), "Password", 4);
    IntentOk(Intent("Password", statement, None));
  }

  lemma IntentListFits(intents: seq<Intent>)
    requires 74 * |intents| + 5 <= U32_MAX
    requires forall k | 0 <= k < |intents| ::
               IntentCodec().ok(Strip(intents[k])) && |IntentCodec().enc(intents[k])| <= 74
    ensures IntentList().ok(StripAll(intents)) && |IntentList().enc(intents)| <= U32_MAX
  {
    hide IntentCodec;
    Scale.EncodeAllLength(IntentCodec(), intents, 74);
    Scale.VecOk(IntentCodec(), StripAll(intents));
  }

  /** Passwords however long can be registered, as long as there are not too many. */
  lemma PasswordsRegistrable(sha256: Bytes -> Bytes32, filename: Bytes, ps: seq<string>, ciphertext: Bytes)
    requires |filename| <= U32_MAX && 74 * |ps| + 5 <= U32_MAX
    ensures Registrable(filename, CidOf(sha256, ciphertext), PasswordIntents(sha256, ps))
  {
    hide IntentCodec, IntentList;
    var intents := PasswordIntents(sha256, ps);
    forall k | 0 <= k < |intents| ensures IntentCodec().ok(Strip(intents[k])) && |IntentCodec().enc(intents[k])| <= 74 {
      IntentEncodable(sha256(Utf8.Encode(ps[k])));
      PasswordIntentLength(sha256, ps[k]);
    }
    IntentListFits(intents);
  }

  /** A locked name stays locked with the same passwords and ciphertext until it is removed. */
  lemma {:induction false} LockStays(c: Publishing.Env, steps: seq<Publishing.Step>, more: seq<Publishing.Step>,
                                     filename: Bytes, ps: seq<string>)
    requires LockedWith(Publishing.Exec(c, steps), filename, ps)
    requires forall k | 0 <= k < |more| :: more[k] != Publishing.Remove(filename)
    ensures var s, t := Publishing.Exec(c, steps), Publishing.Exec(c, steps + more);
            LockedWith(t, filename, ps) && t.origin[filename] == s.origin[filename]
  {
    hide Publishing.Apply;
    if more == [] {
      assert steps + more == steps;
    } else {
      var n := |more| - 1;
      LockStays(c, steps, more[..n], filename, ps);
      Publishing.ExecNext(c, steps + more[..n], more[n]);
      assert steps + more[..n] + [more[n]] == steps + more;
      Publishing.EntryStays(c, Publishing.Exec(c, steps + more[..n]), more[n], filename);
    }
  }

  // ---- What a locked file reads as ----

  /** The registry and the document hold this ciphertext and these intents for the name. */
  ghost predicate HoldsFile(c: Publishing.Env, r: Registry.Registry, docs: Doc, filename: Bytes, ciphertext: Bytes,
                            intents: seq<Intent>) {
    && filename in r.entries
    && r.entries[filename] == Registry.Entry(CidOf(c.sha256, ciphertext), IntentList().enc(intents))
    && Publishing.Kept(c, docs, ciphertext)
  }

  lemma LockedHolds(c: Publishing.Env, steps: seq<Publishing.Step>, filename: Bytes, ps: seq<string>)
    requires Knows(c.gadgets, c.sha256) && SoundRun(c, steps) && LockedWith(Publishing.Exec(c, steps), filename, ps)
    ensures var s := Publishing.Exec(c, steps);
            var x := s.origin[filename].0;
            && HoldsFile(c, s.registry, s.docs, filename, x, PasswordIntents(c.sha256, ps))
            && Registrable(filename, CidOf(c.sha256, x), PasswordIntents(c.sha256, ps))
            && c.cidValid(CidOf(c.sha256, x)) && !Publishing.OtherKey(Publishing.CidKey(c, x))
  {
    var s := Publishing.Exec(c, steps);
    Publishing.Reachable(c, steps);
    PasswordsParse(c.gadgets, c.sha256, ps);
    assert Publishing.EntryOk(c, s.added, filename, s.registry.entries[filename], s.origin[filename]);
    assert Publishing.Kept(c, s.docs, s.origin[filename].0);
  }

  lemma HeldReads(c: Publishing.Env, r: Registry.Registry, docs: Doc, filename: Bytes, ciphertext: Bytes,
                  intents: seq<Intent>)
    requires HoldsFile(c, r, docs, filename, ciphertext, intents)
    requires Registrable(filename, CidOf(c.sha256, ciphertext), intents) && c.cidValid(CidOf(c.sha256, ciphertext))
    ensures GetIntent(c.cidValid, r, filename) == Done(Some((CidOf(c.sha256, ciphertext), StripAll(intents))))
    ensures Fetch(c.cidText, docs, CidOf(c.sha256, ciphertext)) == Done(Some(ciphertext))
  {
    GetStored(c.cidValid, r, filename, CidOf(c.sha256, ciphertext), intents);
    FetchAnnounced(c.cidText, docs, CidOf(c.sha256, ciphertext), Announcement(Tag.Doc, ciphertext));
  }

  lemma LockedReads(c: Publishing.Env, steps: seq<Publishing.Step>, filename: Bytes, ps: seq<string>)
    requires Knows(c.gadgets, c.sha256) && SoundRun(c, steps) && LockedWith(Publishing.Exec(c, steps), filename, ps)
    ensures var s := Publishing.Exec(c, steps);
            var cid := CidOf(c.sha256, s.origin[filename].0);
            && GetIntent(c.cidValid, s.registry, filename) == Done(Some((cid, StripAll(PasswordIntents(c.sha256, ps)))))
            && Fetch(c.cidText, s.docs, cid) == Done(Some(s.origin[filename].0))
  {
    var s := Publishing.Exec(c, steps);
    LockedHolds(c, steps, filename, ps);
    HeldReads(c, s.registry, s.docs, filename, s.origin[filename].0, PasswordIntents(c.sha256, ps));
  }

  // ---- The answer, all at once ----

  /** End to end, under any interleaving of encrypting clients: a file registered with
      passwords is answered, whatever is typed, exactly when cutting what was typed at its
      commas yields those passwords; and the answer is the worker's share of exactly the
      ciphertext its owner stored. */
  lemma TypedAnswer(c: Publishing.Env, env: Worker.Env, steps: seq<Publishing.Step>, filename: Bytes,
                    ps: seq<string>, typed: string, location: Bytes, heights: nat -> nat, index: nat)
    requires SameWorld(c, env) && Knows(c.gadgets, c.sha256) && SoundRun(c, steps)
    requires var s := Publishing.Exec(c, steps);
             LockedWith(s, filename, ps) &&
                 Answerable(env, index, filename, location, s.origin[filename].0)
    requires Witnesses().ok(BytesOf(SplitWitnesses(typed))) && WordsApart(c.sha256, ps, SplitWitnesses(typed))
    ensures var s := Publishing.Exec(c, steps);
            var verdict := Process(env, s.registry, heights, s.docs, index, TypedRequest(filename, typed, location));
            if SplitWitnesses(typed) == ps then IsAnswer(env, verdict, filename, index, s.origin[filename].0)
                else !verdict.Release?
  {
    hide Process, IsAnswer, Answerable, SplitWitnesses, GetIntent, Fetch, Publishing.Exec, WordsApart, Knows, SoundRun;
    LockedReads(c, steps, filename, ps);
    StateAnswer(c, env, Publishing.Exec(c, steps), filename, ps, typed, location, heights, index);
  }

  lemma StateAnswer(c: Publishing.Env, env: Worker.Env, s: Publishing.Shared, filename: Bytes, ps: seq<string>,
                    typed: string, location: Bytes, heights: nat -> nat, index: nat)
    requires SameWorld(c, env) && Knows(c.gadgets, c.sha256) && filename in s.origin
    requires Answerable(env, index, filename, location, s.origin[filename].0)
    requires Witnesses().ok(BytesOf(SplitWitnesses(typed))) && WordsApart(c.sha256, ps, SplitWitnesses(typed))
    requires var cid := CidOf(c.sha256, s.origin[filename].0);
             && GetIntent(c.cidValid, s.registry, filename) ==
                 Done(Some((cid, StripAll(PasswordIntents(c.sha256, ps)))))
             && Fetch(c.cidText, s.docs, cid) == Done(Some(s.origin[filename].0))
    ensures var verdict := Process(env, s.registry, heights, s.docs, index, TypedRequest(filename, typed, location));
            if SplitWitnesses(typed) == ps then IsAnswer(env, verdict, filename, index, s.origin[filename].0)
                else !verdict.Release?
  {
    var ciphertext := s.origin[filename].0;
    Answered(env, c.sha256, s.registry, heights, s.docs, index, TypedRequest(filename, typed, location),
             CidOf(c.sha256, ciphertext), ciphertext, ps, SplitWitnesses(typed));
  }

  // ---- The answer, among everything else that happens ----

  /** The write that adding x to the document makes; x is no collision with the ciphertext. */
  ghost predicate AddsBeside(c: Publishing.Env, ciphertext: Bytes, x: Bytes, key: string, value: Bytes) {
    && key == Publishing.CidKey(c, x) && value == AnnouncementCodec().enc(Announcement(Tag.Doc, x))
    && (key == Publishing.CidKey(c, ciphertext) ==> x == ciphertext)
  }

  /** Steps that do not remove the name, and write CID keys of the document only by adding. */
  ghost predicate Civil(c: Publishing.Env, filename: Bytes, ciphertext: Bytes, step: Network.Step) {
    match step
    case RegistryMessage(entry) => entry != Registry.RemoveMessage(filename)
    case WriteDoc(key, value) => Publishing.OtherKey(key) || exists x :: AddsBeside(c, ciphertext, x, key, value)
    case _ => true
  }

  lemma RegistryKeeps(c: Publishing.Env, r: Registry.Registry, docs: Doc, m: Registry.Message, filename: Bytes,
                      ciphertext: Bytes, intents: seq<Intent>)
    requires HoldsFile(c, r, docs, filename, ciphertext, intents) && m != Registry.RemoveMessage(filename)
    ensures HoldsFile(c, Registry.Step(r, m).0, docs, filename, ciphertext, intents)
  {
    hide Publishing.Kept, IntentList, CidOf;
  }

  lemma WriteKeeps(c: Publishing.Env, r: Registry.Registry, docs: Doc, key: string, value: Bytes, filename: Bytes,
                   ciphertext: Bytes, intents: seq<Intent>)
    requires HoldsFile(c, r, docs, filename, ciphertext, intents)
    requires !Publishing.OtherKey(Publishing.CidKey(c, ciphertext))
    requires Publishing.OtherKey(key) || exists x :: AddsBeside(c, ciphertext, x, key, value)
    ensures HoldsFile(c, r, docs[key := value], filename, ciphertext, intents)
  {
    if key != Publishing.CidKey(c, ciphertext) { Publishing.KeptElsewhere(c, docs, ciphertext, key, value); }
  }

  lemma CivilKeeps(c: Publishing.Env, g: Network.Setting, s: Network.Sys, step: Network.Step, filename: Bytes,
                   ciphertext: Bytes, intents: seq<Intent>)
    requires HoldsFile(c, s.registry, s.docs, filename, ciphertext, intents) && Civil(c, filename, ciphertext, step)
    requires !Publishing.OtherKey(Publishing.CidKey(c, ciphertext))
    ensures var t := Network.Apply(g, s, step); HoldsFile(c, t.registry, t.docs, filename, ciphertext, intents)
  {
    hide HoldsFile;
    match step
    case RegistryMessage(m) => RegistryKeeps(c, s.registry, s.docs, m, filename, ciphertext, intents);
    case WriteDoc(key, value) => WriteKeeps(c, s.registry, s.docs, key, value, filename, ciphertext, intents);
    case _ => Network.StoresUntouched(g, s, step);
  }

  lemma {:induction false} CivilRunKeeps(c: Publishing.Env, g: Network.Setting, s: Network.Sys,
                                         steps: seq<Network.Step>, filename: Bytes, ciphertext: Bytes,
                                         intents: seq<Intent>)
    requires HoldsFile(c, s.registry, s.docs, filename, ciphertext, intents)
    requires !Publishing.OtherKey(Publishing.CidKey(c, ciphertext))
    requires forall k | 0 <= k < |steps| :: Civil(c, filename, ciphertext, steps[k])
    ensures var t := Network.ExecFrom(g, s, steps); HoldsFile(c, t.registry, t.docs, filename, ciphertext, intents)
  {
    hide HoldsFile, Network.Apply;
    if steps != [] {
      var n := |steps| - 1;
      CivilRunKeeps(c, g, s, steps[..n], filename, ciphertext, intents);
      CivilKeeps(c, g, Network.ExecFrom(g, s, steps[..n]), steps[n], filename, ciphertext, intents);
    }
  }

  /** The typed request against the locked file, as a worker deals with it. */
  function TypedCase(c: Publishing.Env, env: Worker.Env, p: nat, filename: Bytes, ciphertext: Bytes,
                     ps: seq<string>, typed: string, location: Bytes): Network.Case
    requires Seal(env, p, TypedRequest(filename, typed, location), ciphertext).Release?
  {
    var ws := BytesOf(SplitWitnesses(typed));
    Network.Case(TypedRequest(filename, typed, location),
                 Opened(CidOf(c.sha256, ciphertext), StripAll(PasswordIntents(c.sha256, ps)), Witnesses().enc(ws)), ws,
                 Seal(env, p, TypedRequest(filename, typed, location), ciphertext).message)
  }

  /** The setting opens and answers requests as the workers of this environment do. */
  ghost predicate Faithful(g: Network.Setting, env: Worker.Env) {
    && (forall r: Registry.Registry, req: Request :: g.open(r, req) == Network.OpenList(env, r, req))
    && (forall docs: Doc, i: nat, req: Request, cid: Bytes ::
        g.finish(docs, i, req, cid) == Finish(env, docs, i, req, cid))
  }

  lemma DeployedFaithful(hash: Bytes -> Bytes, threshold: nat, sha256: Bytes -> Bytes32, env: Worker.Env)
    ensures var g := Network.Deployed(hash, threshold, sha256, env); Faithful(g, env) && g.gadgets == env.gadgets
  {
  }

  lemma OpensListAs(env: Worker.Env, r: Registry.Registry, req: Request, cid: Bytes, intents: seq<Intent>,
                    words: seq<string>)
    requires Witnesses().ok(BytesOf(words)) && req.witnessHex == EncodeWitnesses(words)
    requires GetIntent(env.cidValid, r, req.filename) == Done(Some((cid, intents)))
    ensures Network.OpenList(env, r, req) ==
        Some((Opened(cid, intents, Witnesses().enc(BytesOf(words))), BytesOf(words)))
  {
    OpensAs(env, r, req, cid, intents, words);
    WitnessesLawful();
    Scale.Decodes(Witnesses(), BytesOf(words), []);
  }

  lemma TypedReads(c: Publishing.Env, env: Worker.Env, g: Network.Setting, s: Network.Sys, p: nat, filename: Bytes,
                   ciphertext: Bytes, ps: seq<string>, typed: string, location: Bytes)
    requires SameWorld(c, env) && Answerable(env, p, filename, location, ciphertext)
    requires Witnesses().ok(BytesOf(SplitWitnesses(typed)))
    requires HoldsFile(c, s.registry, s.docs, filename, ciphertext, PasswordIntents(c.sha256, ps))
    requires Registrable(filename, CidOf(c.sha256, ciphertext), PasswordIntents(c.sha256, ps))
    requires c.cidValid(CidOf(c.sha256, ciphertext))
    requires Faithful(g, env)
    ensures Seal(env, p, TypedRequest(filename, typed, location), ciphertext).Release?
    ensures Network.Reads(g, s, p, TypedCase(c, env, p, filename, ciphertext, ps, typed, location))
  {
    var req := TypedRequest(filename, typed, location);
    var cid := CidOf(c.sha256, ciphertext);
    HeldReads(c, s.registry, s.docs, filename, ciphertext, PasswordIntents(c.sha256, ps));
    OpensListAs(env, s.registry, req, cid, StripAll(PasswordIntents(c.sha256, ps)), SplitWitnesses(typed));
    FinishesAs(env, s.docs, p, req, cid, ciphertext);
  }

  /** Whatever the heights of the worker's turns, the words decide. */
  lemma TypedVerdicts(c: Publishing.Env, g: Network.Setting, k: Network.Case, ps: seq<string>, words: seq<string>,
                      heights: seq<nat>)
    requires Knows(g.gadgets, c.sha256) && WordsApart(c.sha256, ps, words)
    requires k.found.intents == StripAll(PasswordIntents(c.sha256, ps)) && k.ws == BytesOf(words)
    ensures Network.CaseAccepted(g, k, heights) ==> words == ps
    ensures Network.CaseRefused(g, k, heights) ==> words != ps
  {
    forall i: nat, at: nat | i < |words| == |ps| ensures Network.AcceptsAt(g, k, i, at) <==> words[i] == ps[i] {
      assert ps[i] in ps && words[i] in words;
      PasswordVerdict(g.gadgets, c.sha256, at, ps[i], words[i]);
    }
    if Network.CaseAccepted(g, k, heights) {
      forall i | 0 <= i < |ps| ensures words[i] == ps[i] { assert Network.AcceptsAt(g, k, i, heights[i]); }
    }
  }

  /** End to end, on the network machine, with nothing held still: from a state in which node p
      has just taken the typed request, run any steps of anybody - other nodes, new requests
      and registrations, files added, blocks, this node's own watcher - as long as the name is
      not removed and the document's CID keys are only written by adding. Then the request is
      still in the worker's hands and unanswered, or it has been dealt with: by sending the one
      message that is the answer, if the words typed are the passwords, and by sending nothing
      if they are not. After |words| + 2 turns of the worker it has been dealt with. */
  lemma NodeAnswers(c: Publishing.Env, env: Worker.Env, past: seq<Publishing.Step>, filename: Bytes,
                    ps: seq<string>, typed: string, location: Bytes, hash: Bytes -> Bytes, threshold: nat,
                    net: Network.Sys, p: nat, steps: seq<Network.Step>)
    requires SameWorld(c, env) && Knows(c.gadgets, c.sha256) && SoundRun(c, past)
    requires var s := Publishing.Exec(c, past);
             && net.registry == s.registry && net.docs == s.docs
             && LockedWith(s, filename, ps)
             && Answerable(env, p, filename, location, s.origin[filename].0)
    requires Witnesses().ok(BytesOf(SplitWitnesses(typed))) && WordsApart(c.sha256, ps, SplitWitnesses(typed))
    requires p in net.nodes && net.nodes[p].job == Network.Taken(TypedRequest(filename, typed, location))
    requires var x := Publishing.Exec(c, past).origin[filename].0;
             forall k | 0 <= k < |steps| :: Network.Attends(p, steps[k]) && Civil(c, filename, x, steps[k])
    ensures var g := Network.Deployed(hash, threshold, c.sha256, env);
            Settles(env, net, Network.ExecFrom(g, net, steps), p, TypedRequest(filename, typed, location),
                    Publishing.Exec(c, past).origin[filename].0, SplitWitnesses(typed) == ps,
                    Network.Turns(g, net, p, steps) >= |SplitWitnesses(typed)| + 2)
  {
    hide HoldsFile, Answerable, Settles, Registrable, Civil, SoundRun, SameWorld, Knows, WordsApart, TypedRequest;
    hide Network.Deployed, Network.Turns, Network.Attends, Network.ExecFrom, Publishing.Exec;
    var x := Publishing.Exec(c, past).origin[filename].0;
    LockedHolds(c, past, filename, ps);
    DeployedFaithful(hash, threshold, c.sha256, env);
    HeldAnswers(c, env, Network.Deployed(hash, threshold, c.sha256, env), net, p, filename, x, ps, typed, location,
        steps);
  }

  /** The same, told of the state alone. */
  lemma HeldAnswers(c: Publishing.Env, env: Worker.Env, g: Network.Setting, net: Network.Sys, p: nat,
                    filename: Bytes, x: Bytes, ps: seq<string>, typed: string, location: Bytes,
                    steps: seq<Network.Step>)
    requires SameWorld(c, env) && Knows(c.gadgets, c.sha256) && g.gadgets == env.gadgets && Faithful(g, env)
    requires HoldsFile(c, net.registry, net.docs, filename, x, PasswordIntents(c.sha256, ps))
    requires Registrable(filename, CidOf(c.sha256, x), PasswordIntents(c.sha256, ps)) && c.cidValid(CidOf(c.sha256, x))
    requires !Publishing.OtherKey(Publishing.CidKey(c, x))
    requires Answerable(env, p, filename, location, x)
    requires Witnesses().ok(BytesOf(SplitWitnesses(typed))) && WordsApart(c.sha256, ps, SplitWitnesses(typed))
    requires p in net.nodes && net.nodes[p].job == Network.Taken(TypedRequest(filename, typed, location))
    requires forall k | 0 <= k < |steps| :: Network.Attends(p, steps[k]) && Civil(c, filename, x, steps[k])
    ensures Settles(env, net, Network.ExecFrom(g, net, steps), p, TypedRequest(filename, typed, location), x,
                    SplitWitnesses(typed) == ps, Network.Turns(g, net, p, steps) >= |SplitWitnesses(typed)| + 2)
  {
    hide HoldsFile, Registrable, Network.Reads, Network.InHand, Network.Left, Network.ExecFrom, Network.Turns;
    hide Network.CaseAccepted, Network.CaseRefused, Network.TurnHeights;
    hide Settles, IsAnswer, Civil, Answerable, WordsApart, Faithful, Knows;
    TypedReads(c, env, g, net, p, filename, x, ps, typed, location);
    var k := TypedCase(c, env, p, filename, x, ps, typed, location);
    TypedVerdicts(c, g, k, ps, SplitWitnesses(typed), Network.TurnHeights(g, net, p, steps));
    forall i | 0 <= i < |steps|
      ensures Network.Attends(p, steps[i]) && Network.Reads(g, Network.ExecFrom(g, net, steps[..i]), p, k)
    {
      CivilRunKeeps(c, g, net, steps[..i], filename, x, PasswordIntents(c.sha256, ps));
      TypedReads(c, env, g, Network.ExecFrom(g, net, steps[..i]), p, filename, x, ps, typed, location);
    }
    Network.RunInHand(g, net, p, k, steps);
    CaseAnswers(c, env, p, filename, x, ps, typed, location);
    HandSettles(g, env, net, p, k, steps, x, SplitWitnesses(typed) == ps);
  }

  lemma CaseAnswers(c: Publishing.Env, env: Worker.Env, p: nat, filename: Bytes, x: Bytes, ps: seq<string>,
                    typed: string, location: Bytes)
    requires Seal(env, p, TypedRequest(filename, typed, location), x).Release?
    ensures var k := TypedCase(c, env, p, filename, x, ps, typed, location);
            k.req == TypedRequest(filename, typed, location) && k.ws == BytesOf(SplitWitnesses(typed))
            && IsAnswer(env, Release(k.message), filename, p, x)
  {
    SealedMessage(env, p, TypedRequest(filename, typed, location), x);
  }

  lemma HandSettles(g: Network.Setting, env: Worker.Env, s: Network.Sys, p: nat, k: Network.Case,
                    steps: seq<Network.Step>, x: Bytes, accepted: bool)
    requires var t, heights := Network.ExecFrom(g, s, steps), Network.TurnHeights(g, s, p, steps);
             && Network.InHand(g, t, p, k, heights, Network.SentBy(p, s.released))
             && Network.Left(k, t.nodes[p].job) + Network.Turns(g, s, p, steps) <= |k.ws| + 2
             && (Network.CaseAccepted(g, k, heights) ==> accepted) && (Network.CaseRefused(g, k, heights) ==> !accepted)
    requires IsAnswer(env, Release(k.message), k.req.filename, p, x)
    ensures Settles(env, s, Network.ExecFrom(g, s, steps), p, k.req, x, accepted,
                    Network.Turns(g, s, p, steps) >= |k.ws| + 2)
  {
    hide IsAnswer, Network.CaseAccepted, Network.CaseRefused, Network.Turns, Network.ExecFrom;
    var before := Network.SentBy(p, s.released);
    assert (before + [Network.Sent(p, k.req, k.message)])[..|before|] == before;
  }

  /** Between `s` and `t`, node p has left the request alone so far, or has dealt with it. */
  ghost predicate Settles(env: Worker.Env, s: Network.Sys, t: Network.Sys, p: nat, req: Request, ciphertext: Bytes,
                          accepted: bool, mustEnd: bool) {
    && p in t.nodes
    && var before, now := Network.SentBy(p, s.released), Network.SentBy(p, t.released);
    && if Network.Busy(t.nodes[p]) then t.nodes[p].job.req == req && now == before && !mustEnd
       else if accepted
       then now != [] && now[..|now| - 1] == before && now[|now| - 1].node == p && now[|now| - 1].req == req
            && IsAnswer(env, Release(now[|now| - 1].message), req.filename, p, ciphertext)
       else now == before
  }

  /** The honest user types the passwords with commas between them. That is answered exactly
      when every password is free of commas and of white space at its ends: the client cuts
      and trims, while the encrypting side keeps the data as written. */
  lemma HonestAnswer(c: Publishing.Env, env: Worker.Env, steps: seq<Publishing.Step>, filename: Bytes,
                     ps: seq<string>, location: Bytes, heights: nat -> nat, index: nat)
    requires SameWorld(c, env) && Knows(c.gadgets, c.sha256) && SoundRun(c, steps)
    requires var s := Publishing.Exec(c, steps);
             && LockedWith(s, filename, ps)
             && Answerable(env, index, filename, location, s.origin[filename].0)
    requires var words := SplitWitnesses(Text.Join(",", ps));
             Witnesses().ok(BytesOf(words)) && WordsApart(c.sha256, ps, words)
    ensures var s := Publishing.Exec(c, steps);
            Process(env, s.registry, heights, s.docs, index,
                TypedRequest(filename, Text.Join(",", ps), location)).Release?
            <==> CommaWords(ps)
  {
    TypedAnswer(c, env, steps, filename, ps, Text.Join(",", ps), location, heights, index);
    SplitWitnessesIff(ps);
  }

  /** A password with a comma or outer white space cannot be typed in any way: whatever the
      user types, the words sent are not these. */
  lemma Untypable(ps: seq<string>, typed: string)
    requires !CommaWords(ps)
    ensures SplitWitnesses(typed) != ps
  {
    PiecesAreCommaWords(typed);
  }

  lemma CommaWritable()
    ensures Writable("a,b") && !CommaWords(["a,b"])
  {
    NoAmp("a,b");
    assert Depth("a,b", 0) == Depth("a,b", 1) == Depth("a,b", 2) == Depth("a,b", 3) == 1;
    assert ',' in ["a,b"][0];
  }

  /** Such a file exists: an owner alone locks one with the password `a,b`, and nobody can ever
      type the words it asks for. */
  lemma CommaPasswordLocksForGood(c: Publishing.Env, client: nat, filename: Bytes, ciphertext: Bytes)
    requires Knows(c.gadgets, c.sha256) && |filename| <= U32_MAX
    requires AnnouncementCodec().ok(Announcement(Tag.Doc, ciphertext))
    ensures var own := Publishing.OwnSteps(client, filename, IntentString(["a,b"]), [], ciphertext, []);
            LockedWith(Publishing.Exec(c, own + [Publishing.Register(client)]), filename, ["a,b"])
    ensures forall typed: string :: SplitWitnesses(typed) != ["a,b"]
  {
    CommaWritable();
    PasswordsRegistrable(c.sha256, filename, ["a,b"], ciphertext);
    SoleOwnerLocks(c, client, filename, ["a,b"], ciphertext);
    forall typed: string ensures SplitWitnesses(typed) != ["a,b"] { Untypable(["a,b"], typed); }
  }

  lemma SoleOwnerLocks(c: Publishing.Env, client: nat, filename: Bytes, ps: seq<string>, ciphertext: Bytes)
    requires Knows(c.gadgets, c.sha256) && ps != [] && (forall p | p in ps :: Writable(p))
    requires AnnouncementCodec().ok(Announcement(Tag.Doc, ciphertext))
    requires Registrable(filename, CidOf(c.sha256, ciphertext), PasswordIntents(c.sha256, ps))
    ensures var own := Publishing.OwnSteps(client, filename, IntentString(ps), [], ciphertext, []);
            LockedWith(Publishing.Exec(c, own + [Publishing.Register(client)]), filename, ps)
  {
    hide Registrable, AnnouncementCodec, Knows, Publishing.Apply;
    OwnerLocks(c, [], client, filename, ps, [], ciphertext, []);
    var b, st := Publishing.Begin(client, filename, IntentString(ps)), Publishing.Store(client, ciphertext);
    var own := Publishing.OwnSteps(client, filename, IntentString(ps), [], ciphertext, []);
    assert [] + own == own == [] + [b] + [st];
    Publishing.ExecNext(c, [], b);
    Publishing.RegistryUntouched(c, Publishing.Exec(c, []), b);
    Publishing.ExecNext(c, [] + [b], st);
    Publishing.RegistryUntouched(c, Publishing.Exec(c, [] + [b]), st);
  }

  // ---- Answers go to those who know the passwords ----

  /** SHA-256 tells the passwords and these witnesses apart. */
  ghost predicate BytesApart(sha256: Bytes -> Bytes32, ps: seq<string>, ws: seq<Bytes>) {
    forall p, w | p in ps && w in ws :: sha256(w) == sha256(Utf8.Encode(p)) ==> w == Utf8.Encode(p)
  }

  /** Over every run of the network, with the registry read and the ciphertext of
      Network.ReleaseSafety: a message sent for a file whose registry read gave the intents of
      passwords answers a request that carries exactly those passwords. */
  lemma ReleasedToKnower(hash: Bytes -> Bytes, threshold: nat, sha256: Bytes -> Bytes32, env: Worker.Env,
                         workers: seq<AccountId>, steps: seq<Network.Step>, k: nat, ps: seq<string>)
    returns (i: nat, o: Opened, ws: seq<Bytes>)
    requires 1 <= threshold <= U32_MAX && Knows(env.gadgets, sha256)
    requires k < |Network.Exec(Network.Deployed(hash, threshold, sha256, env), workers, steps).released|
    ensures var g := Network.Deployed(hash, threshold, sha256, env);
            var r := Network.Exec(g, workers, steps).released[k];
            && i <= |steps|
            && GetIntent(env.cidValid, Network.At(g, workers, steps, i).registry, r.req.filename) ==
                Done(Some((o.cid, o.intents)))
            && DecodeWitnesses(r.req.witnessHex) == Some(ws)
            && (o.intents == StripAll(PasswordIntents(sha256, ps)) && BytesApart(sha256, ps, ws) ==> ws == BytesOf(ps))
  {
    hide DecodeWitnesses, GetIntent, Fetch, PartialDecryptionCodec, ReadAll, Network.Exec, Network.At,
        Network.ApprovedIn, Knows;
    hide BytesApart, BytesOf, StripAll, PasswordIntents;
    var g := Network.Deployed(hash, threshold, sha256, env);
    var j: nat, ciphertext;
    i, j, o, ws, ciphertext := Network.ReleaseSafety(hash, threshold, sha256, env, workers, steps, k);
    if o.intents == StripAll(PasswordIntents(sha256, ps)) && BytesApart(sha256, ps, ws) {
      KnownWords(g, sha256, workers, steps, i, j, ps, ws);
    }
  }

  lemma KnownWords(g: Network.Setting, sha256: Bytes -> Bytes32, workers: seq<AccountId>, steps: seq<Network.Step>,
                   i: nat, j: nat, ps: seq<string>, ws: seq<Bytes>)
    requires Knows(g.gadgets, sha256) && BytesApart(sha256, ps, ws) && |ws| == |ps|
    requires var intents := StripAll(PasswordIntents(sha256, ps));
             forall n: nat | n < |ws| :: Network.ApprovedIn(g, workers, steps, i, j, intents[n], ws[n])
    ensures ws == BytesOf(ps)
  {
    hide Network.ApprovedIn, Network.Exec, Network.At;
    var intents := StripAll(PasswordIntents(sha256, ps));
    forall n | 0 <= n < |ps| ensures ws[n] == Utf8.Encode(ps[n]) {
      assert Network.ApprovedIn(g, workers, steps, i, j, intents[n], ws[n]);
      KnownWord(g, sha256, workers, steps, i, j, ps[n], ws[n]);
      assert ps[n] in ps && ws[n] in ws;
    }
  }

  lemma KnownWord(g: Network.Setting, sha256: Bytes -> Bytes32, workers: seq<AccountId>, steps: seq<Network.Step>,
                  i: nat, j: nat, p: string, w: Bytes)
    requires Knows(g.gadgets, sha256)
    requires Network.ApprovedIn(g, workers, steps, i, j, Intent("Password", sha256(Utf8.Encode(p)), None), w)
    ensures sha256(w) == sha256(Utf8.Encode(p))
  {
  }

  // ---- Answers carry the owner's own ciphertext ----

  /** Along the network's run, registry and document are those of a run of clients: `at` says
      how many of the clients' steps have been taken before each step of the network. */
  ghost predicate Mirrors(c: Publishing.Env, g: Network.Setting, workers: seq<AccountId>, steps: seq<Network.Step>,
                          clients: seq<Publishing.Step>, at: seq<nat>) {
    && |at| == |steps| + 1 && (forall i, j | 0 <= i <= j < |at| :: at[i] <= at[j] <= |clients|)
    && forall i | 0 <= i < |at| ::
         var s := Publishing.Exec(c, clients[..at[i]]);
         && Network.At(g, workers, steps, i).registry == s.registry
         && Network.At(g, workers, steps, i).docs == s.docs
  }

  /** Any message sent for a name: that name had an owner when the worker read the registry, and
      the message carries the worker's share of exactly the ciphertext that owner stored. */
  lemma OwnersCiphertext(c: Publishing.Env, hash: Bytes -> Bytes, threshold: nat, env: Worker.Env,
                         workers: seq<AccountId>, steps: seq<Network.Step>, clients: seq<Publishing.Step>,
                         at: seq<nat>, k: nat)
    returns (i: nat)
    requires 1 <= threshold <= U32_MAX && SameWorld(c, env) && SoundRun(c, clients)
    requires Mirrors(c, Network.Deployed(hash, threshold, c.sha256, env), workers, steps, clients, at)
    requires k < |Network.Exec(Network.Deployed(hash, threshold, c.sha256, env), workers, steps).released|
    ensures i <= |steps|
    ensures var r := Network.Exec(Network.Deployed(hash, threshold, c.sha256, env), workers, steps).released[k];
            var s := Publishing.Exec(c, clients[..at[i]]);
            && r.req.filename in s.registry.entries && r.req.filename in s.origin
            && IsAnswer(env, Release(r.message), r.req.filename, r.node, s.origin[r.req.filename].0)
  {
    hide DecodeWitnesses, GetIntent, Fetch, PartialDecryptionCodec, ReadAll;
    hide Network.Exec, Network.At, Network.ApprovedIn;
    hide SoundRun, Publishing.Exec, Network.Deployed;
    var j: nat, o, ws, ciphertext;
    i, j, o, ws, ciphertext := Network.ReleaseSafety(hash, threshold, c.sha256, env, workers, steps, k);
    var r := Network.Exec(Network.Deployed(hash, threshold, c.sha256, env), workers, steps).released[k];
    OwnedRead(c, clients, at[i], at[j], r.req.filename, o.cid, o.intents, ciphertext);
  }

  lemma {:induction false} AddedPrefix(c: Publishing.Env, clients: seq<Publishing.Step>, m: nat)
    requires m <= |clients|
    ensures Publishing.Exec(c, clients[..m]).added <= Publishing.Exec(c, clients).added
  {
    hide Publishing.Apply;
    if m < |clients| {
      var n := |clients| - 1;
      assert clients[..n][..m] == clients[..m];
      AddedPrefix(c, clients[..n], m);
      Publishing.AddedGrows(c, Publishing.Exec(c, clients[..n]), clients[n]);
    } else {
      assert clients[..m] == clients;
    }
  }

  lemma SoundPrefix(c: Publishing.Env, clients: seq<Publishing.Step>, m: nat)
    requires SoundRun(c, clients) && m <= |clients|
    ensures SoundRun(c, clients[..m])
  {
    AddedPrefix(c, clients, m);
  }

  /** A read of the registry, and later a read of the document under the CID it gave, yield the
      ciphertext of the name's owner at the first read. */
  lemma OwnedRead(c: Publishing.Env, clients: seq<Publishing.Step>, m: nat, n: nat, filename: Bytes, cid: Bytes,
                  intents: seq<Intent>, ciphertext: Bytes)
    requires m <= n <= |clients| && SoundRun(c, clients)
    requires GetIntent(c.cidValid, Publishing.Exec(c, clients[..m]).registry, filename) == Done(Some((cid, intents)))
    requires Fetch(c.cidText, Publishing.Exec(c, clients[..n]).docs, cid) == Done(Some(ciphertext))
    ensures var s := Publishing.Exec(c, clients[..m]);
            filename in s.registry.entries && filename in s.origin && s.origin[filename].0 == ciphertext
  {
    hide SoundRun, GetIntent, Fetch, Publishing.Exec, IntentsOf, IntentList, CidOf;
    SoundPrefix(c, clients, m);
    SoundPrefix(c, clients, n);
    var s := Publishing.Exec(c, clients[..m]);
    GetIntentExact(c.cidValid, s.registry, filename);
    OwnerAdded(c, clients[..m], filename);
    assert clients[..n][..m] == clients[..m];
    AddedPrefix(c, clients[..n], m);
    AddedFetched(c, clients[..n], s.origin[filename].0);
  }

  lemma AddedFetched(c: Publishing.Env, clients: seq<Publishing.Step>, x: Bytes)
    requires SoundRun(c, clients) && x in Publishing.Exec(c, clients).added
    ensures Fetch(c.cidText, Publishing.Exec(c, clients).docs, CidOf(c.sha256, x)) == Done(Some(x))
  {
    Publishing.Reachable(c, clients);
    assert Publishing.Kept(c, Publishing.Exec(c, clients).docs, x);
    FetchAnnounced(c.cidText, Publishing.Exec(c, clients).docs, CidOf(c.sha256, x), Announcement(Tag.Doc, x));
  }

  lemma OwnerAdded(c: Publishing.Env, clients: seq<Publishing.Step>, filename: Bytes)
    requires SoundRun(c, clients) && filename in Publishing.Exec(c, clients).registry.entries
    ensures var s := Publishing.Exec(c, clients);
            && filename in s.origin && s.origin[filename].0 in s.added
            && s.registry.entries[filename].cid == CidOf(c.sha256, s.origin[filename].0)
  {
    hide IntentsOf, IntentList, Registrable, CidOf, Publishing.Exec, Publishing.DocsOk, Publishing.ClientsOk;
    Publishing.Reachable(c, clients);
    var s := Publishing.Exec(c, clients);
    assert Publishing.EntryOk(c, s.added, filename, s.registry.entries[filename], s.origin[filename]);
  }
}
