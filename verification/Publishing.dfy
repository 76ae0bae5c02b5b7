/** Encrypting clients: parse the intents, add the ciphertext to the shared document,
    register the intents; and what holds when any number of them interleave. */
module Publishing {
  import opened Basics
  import opened Gadgets
  import opened Stores
  import opened Wire
  import Registry = PredicateRegistry

  /** The foreign functions and the gadgets a client works with. */
  datatype Env = Env(
    gadgets: Registered,
    sha256: Bytes -> Bytes32,
    cidText: Bytes -> string,
    cidValid: Bytes -> bool)

  datatype EncryptError = IntentParsing | Encryption

  /** The whole of `encrypt`. `sealed` is what threshold encryption produced (`None`: it failed). */
  function Encrypt(env: Env, docs: Doc, r: Registry.Registry, sealed: Option<Bytes>, filename: Bytes, input: string):
    (Doc, Registry.Registry, Outcome<(), EncryptError>)
  {
    match IntentsOf(env.gadgets, input)
    case Failed(_) => (docs, r, Failed(IntentParsing))
    case Panicked => (docs, r, Panicked)
    case Done(intents) =>
      if sealed.None? then (docs, r, Failed(Encryption))
      else match AddDoc(env.sha256, env.cidText, docs, sealed.value)
        case Done((after, cid)) =>
          var (q, result) := RegisterIntent(r, filename, cid, intents);
          (after, q, if result.Done? then Done(()) else Panicked)
        case _ => (docs, r, Panicked)
  }

  class EncryptionClient {
    const registry: GadgetRegistry
    const docStore: IrohDocStore
    const intentStore: ContractIntentStore

    constructor (registry: GadgetRegistry, docStore: IrohDocStore, intentStore: ContractIntentStore)
      ensures this.registry == registry && this.docStore == docStore && this.intentStore == intentStore
    {
      this.registry, this.docStore, this.intentStore := registry, docStore, intentStore;
    }

    ghost function Environment(): Env
      reads registry
    {
      Env(registry.gadgets, docStore.sha256, docStore.cidText, intentStore.cidValid)
    }

    method EncryptFile(sealed: Option<Bytes>, filename: Bytes, input: string)
          returns (result: Outcome<(), EncryptError>)
      modifies docStore, intentStore.contract
      ensures (docStore.docs, intentStore.contract.Storage(), result)
           == Encrypt(old(Environment()), old(docStore.docs), old(intentStore.contract.Storage()), sealed, filename,
               input)
    {
      var parsed := registry.ParseIntents(input);
      match parsed
      case Failed(_) => return Failed(IntentParsing);
      case Panicked => return Panicked;
      case Done(intents) =>
        if sealed.None? {
          return Failed(Encryption);
        }
        var added := docStore.Add(sealed.value);
        if !added.Done? {
          return Panicked;
        }
        var registered := intentStore.Register(filename, added.value, intents);
        return if registered.Done? then Done(()) else Panicked;
    }
  }

  /** The ciphertext and the call are not too long to encode. */
  predicate Encodable(sha256: Bytes -> Bytes32, ciphertext: Bytes, filename: Bytes, intents: seq<Intent>) {
    AnnouncementCodec().ok(Announcement(Tag.Doc, ciphertext)) &&
        Registrable(filename, CidOf(sha256, ciphertext), intents)
  }

  /** The document after a ciphertext has been added: an announcement of it under its CID, every
      other key as before. */
  ghost predicate Announced(env: Env, docs: Doc, after: Doc, ciphertext: Bytes) {
    var cid := [0x01, 0x55, 0x12, 0x20] + env.sha256(ciphertext);
    && Fetch(env.cidText, after, cid) == Done(Some(ciphertext))
    && after.Keys == docs.Keys + {env.cidText(cid)}
    && forall key | key in docs && key != env.cidText(cid) :: after[key] == docs[key]
  }

  lemma Adds(env: Env, docs: Doc, ciphertext: Bytes)
    ensures AddDoc(env.sha256, env.cidText, docs, ciphertext).Done? <==>
            AnnouncementCodec().ok(Announcement(Tag.Doc, ciphertext))
    ensures AddDoc(env.sha256, env.cidText, docs, ciphertext).Done? ==>
              var (after, cid) := AddDoc(env.sha256, env.cidText, docs, ciphertext).value;
              cid == CidOf(env.sha256, ciphertext) && Announced(env, docs, after, ciphertext)
  {
    hide Fetch, AnnouncementCodec;
    if AddDoc(env.sha256, env.cidText, docs, ciphertext).Done? {
      AddThenFetch(env.sha256, env.cidText, docs, ciphertext);
    }
  }

  /** A call succeeds exactly when the intents parse, encryption produced a ciphertext that can
      be stored, the call to the registry can be encoded, and the name is free. */
  lemma EncryptDoneIff(env: Env, docs: Doc, r: Registry.Registry, sealed: Option<Bytes>, filename: Bytes, input: string)
    ensures Encrypt(env, docs, r, sealed, filename, input).2 == Done(()) <==>
            && IntentsOf(env.gadgets, input).Done? && sealed.Some? && filename !in r.entries
            && Encodable(env.sha256, sealed.value, filename, IntentsOf(env.gadgets, input).value)
  {
    hide IntentsOf, AddDoc, Announced, Registrable, CallRegister, AnnouncementCodec;
    match IntentsOf(env.gadgets, input)
    case Done(intents) =>
      if sealed.Some? {
        Adds(env, docs, sealed.value);
        RegisterOutcome(r, filename, CidOf(env.sha256, sealed.value), intents);
      }
    case _ =>
  }

  /** What a call that succeeds leaves behind: under the CID of the ciphertext - its SHA-256
      behind the four bytes of a version-1 CID of raw data - the document yields the ciphertext;
      under the name, which was free, the registry yields that CID and the intents parsed; no
      other key and no other name has changed. */
  lemma EncryptLeaves(env: Env, docs: Doc, r: Registry.Registry, ciphertext: Bytes, filename: Bytes, input: string)
    requires Encrypt(env, docs, r, Some(ciphertext), filename, input).2 == Done(())
    ensures var (after, q, _) := Encrypt(env, docs, r, Some(ciphertext), filename, input);
            var cid := [0x01, 0x55, 0x12, 0x20] + env.sha256(ciphertext);
            && filename !in r.entries && IntentsOf(env.gadgets, input).Done?
            && var intents := IntentsOf(env.gadgets, input).value;
            && Announced(env, docs, after, ciphertext)
            && q.entries == r.entries[filename := Registry.Entry(cid, IntentList().enc(intents))]
            && q.filenames == r.filenames + [filename]
            && (env.cidValid(cid) ==> GetIntent(env.cidValid, q, filename) == Done(Some((cid, StripAll(intents)))))
  {
    hide IntentsOf, AddDoc, Announced, Registrable, RegisterIntent, GetIntent, IntentList;
    EncryptDoneIff(env, docs, r, Some(ciphertext), filename, input);
    Adds(env, docs, ciphertext);
    var intents, cid := IntentsOf(env.gadgets, input).value, CidOf(env.sha256, ciphertext);
    RegisterOutcome(r, filename, cid, intents);
    if env.cidValid(cid) { RegisterThenGet(env.cidValid, r, filename, cid, intents); }
  }

  /** A call that does not succeed registers nothing, and leaves the document alone as well
      unless the ciphertext had already been added: then that is all it has changed. A refused
      intent string is reported as such, a failed encryption as such, and all else panics. */
  lemma FailedEncrypt(env: Env, docs: Doc, r: Registry.Registry, sealed: Option<Bytes>, filename: Bytes, input: string)
    requires Encrypt(env, docs, r, sealed, filename, input).2 != Done(())
    ensures var (after, q, result) := Encrypt(env, docs, r, sealed, filename, input);
            var parsed := IntentsOf(env.gadgets, input);
            && q == r
            && (if parsed.Done? && sealed.Some? && AnnouncementCodec().ok(Announcement(Tag.Doc, sealed.value))
                then Announced(env, docs, after, sealed.value) else after == docs)
            && (result == Failed(IntentParsing) <==> parsed.Failed?)
            && (result == Failed(Encryption) <==> parsed.Done? && sealed.None?)
  {
    hide IntentsOf, AddDoc, Announced, Registrable, RegisterIntent, AnnouncementCodec;
    match IntentsOf(env.gadgets, input)
    case Done(intents) =>
      if sealed.Some? {
        Adds(env, docs, sealed.value);
        RegisterOutcome(r, filename, CidOf(env.sha256, sealed.value), intents);
      }
    case _ =>
  }

  // ---- Interleaved clients ----

  datatype Client =
    | Parsed(filename: Bytes, input: string, intents: seq<Intent>)
    | Stored(filename: Bytes, input: string, intents: seq<Intent>, ciphertext: Bytes, cid: Bytes)

  /** `origin` remembers, for each registered name, the ciphertext and the intent string it
      came from, and `added` every ciphertext ever added. */
  datatype Shared = Shared(
    docs: Doc,
    registry: Registry.Registry,
    clients: map<nat, Client>,
    origin: map<Bytes, (Bytes, string)>,
    added: set<Bytes>)

  const FRESH := Shared(map[], Registry.EMPTY, map[], map[], {})

  datatype Step =
    | Begin(client: nat, filename: Bytes, input: string)
    | Store(client: nat, ciphertext: Bytes)
    | Register(client: nat)
    | Remove(filename: Bytes)
    | WriteOther(key: string, value: Bytes)

  /** The keys of the document that are not CIDs do not begin with `b`. */
  predicate OtherKey(key: string) { key == "" || key[0] != 'b' }

  function BeginStep(env: Env, s: Shared, c: nat, filename: Bytes, input: string): Shared {
    if c in s.clients then s
    else match IntentsOf(env.gadgets, input)
      case Done(intents) => s.(clients := s.clients[c := Parsed(filename, input, intents)])
      case _ => s
  }

  function StoreStep(env: Env, s: Shared, c: nat, ciphertext: Bytes): Shared {
    if c !in s.clients || !s.clients[c].Parsed? then s
    else
      var p := s.clients[c];
      match AddDoc(env.sha256, env.cidText, s.docs, ciphertext)
      case Done((docs, cid)) =>
        s.(docs := docs, added := s.added + {ciphertext},
           clients := s.clients[c := Stored(p.filename, p.input, p.intents, ciphertext, cid)])
      case _ => s.(clients := s.clients - {c})
  }

  function RegisterStep(s: Shared, c: nat): Shared {
    if c !in s.clients || !s.clients[c].Stored? then s
    else
      var p := s.clients[c];
      var (q, result) := RegisterIntent(s.registry, p.filename, p.cid, p.intents);
      s.(registry := q, clients := s.clients - {c},
         origin := if result.Done? then s.origin[p.filename := (p.ciphertext, p.input)] else s.origin)
  }

  /** One step of one client, a removal, or another write to the document. A client that
      fails or panics disappears. */
  function Apply(env: Env, s: Shared, step: Step): Shared {
    match step
    case Begin(c, filename, input) => BeginStep(env, s, c, filename, input)
    case Store(c, ciphertext) => StoreStep(env, s, c, ciphertext)
    case Register(c) => RegisterStep(s, c)
    case Remove(filename) => s.(registry := Registry.Remove(s.registry, filename).0)
    case WriteOther(key, value) => if OtherKey(key) then s.(docs := s.docs[key := value]) else s
  }

  function Exec(env: Env, steps: seq<Step>): Shared {
    if steps == [] then FRESH else Apply(env, Exec(env, steps[..|steps| - 1]), steps[|steps| - 1])
  }

  /** A removal frees the name, for anybody to register, and touches no other name. */
  lemma RemoveFrees(env: Env, s: Shared, filename: Bytes)
    ensures var t := Apply(env, s, Remove(filename));
            t.registry.entries == s.registry.entries - {filename} && t.docs == s.docs && t.clients == s.clients
  {
  }

  // ---- One client among the others ----

  /** A step that is not one of client c's. */
  predicate Foreign(c: nat, step: Step) {
    match step
    case Begin(d, _, _) => d != c
    case Store(d, _) => d != c
    case Register(d) => d != c
    case _ => true
  }

  predicate AllForeign(c: nat, steps: seq<Step>) { forall k | 0 <= k < |steps| :: Foreign(c, steps[k]) }

  function ClientAt(s: Shared, c: nat): Option<Client> { if c in s.clients then Some(s.clients[c]) else None }

  /** What one call to `encrypt` does, with whatever else happens between its three steps. */
  function OwnSteps(c: nat, filename: Bytes, input: string, before: seq<Step>, ciphertext: Bytes, after: seq<Step>):
    seq<Step>
  {
    [Begin(c, filename, input)] + before + [Store(c, ciphertext)] + after
  }

  lemma ExecNext(env: Env, steps: seq<Step>, step: Step)
    ensures Exec(env, steps + [step]) == Apply(env, Exec(env, steps), step)
  {
    assert (steps + [step])[..|steps|] == steps;
  }

  /** The entry of a registered name, and where it came from, last until it is removed. */
  lemma EntryStays(env: Env, s: Shared, step: Step, filename: Bytes)
    requires filename in s.registry.entries && filename in s.origin && step != Remove(filename)
    ensures var t := Apply(env, s, step);
            && filename in t.registry.entries && t.registry.entries[filename] == s.registry.entries[filename]
            && filename in t.origin && t.origin[filename] == s.origin[filename]
  {
    hide AddDoc, IntentList, Registrable, IntentsOf;
    if step.Register? && step.client in s.clients && s.clients[step.client].Stored? { RegisterShape(s, step.client); }
  }

  lemma RegistryUntouched(env: Env, s: Shared, step: Step)
    requires !step.Register? && !step.Remove?
    ensures Apply(env, s, step).registry == s.registry
  {
  }

  lemma ForeignStep(env: Env, s: Shared, c: nat, step: Step)
    requires Foreign(c, step)
    ensures ClientAt(Apply(env, s, step), c) == ClientAt(s, c)
  {
  }

  /** Other clients leave this one as it is. */
  lemma {:induction false} ForeignSteps(env: Env, steps: seq<Step>, c: nat, others: seq<Step>)
    requires AllForeign(c, others)
    ensures ClientAt(Exec(env, steps + others), c) == ClientAt(Exec(env, steps), c)
  {
    hide Apply;
    if others == [] {
      assert steps + others == steps;
    } else {
      var n := |others| - 1;
      ForeignSteps(env, steps, c, others[..n]);
      ExecNext(env, steps + others[..n], others[n]);
      assert steps + others[..n] + [others[n]] == steps + others;
      ForeignStep(env, Exec(env, steps + others[..n]), c, others[n]);
    }
  }

  /** What registering does, told through whether the call is accepted. */
  lemma RegisterShape(s: Shared, c: nat)
    requires c in s.clients && s.clients[c].Stored?
    ensures var p := s.clients[c];
            var entry := Registry.Entry(p.cid, IntentList().enc(p.intents));
            RegisterStep(s, c) ==
            if Registrable(p.filename, p.cid, p.intents) && p.filename !in s.registry.entries
            then s.(registry := Registry.Register(s.registry, p.filename, entry).0, clients := s.clients - {c},
                    origin := s.origin[p.filename := (p.ciphertext, p.input)])
            else s.(clients := s.clients - {c})
  {
    var p := s.clients[c];
    RegisterOutcome(s.registry, p.filename, p.cid, p.intents);
  }

  /** The client after its first step, and after its second. */
  function Begun(env: Env, filename: Bytes, input: string): Option<Client> {
    if IntentsOf(env.gadgets, input).Done? then Some(Parsed(filename, input, IntentsOf(env.gadgets, input).value))
        else None
  }

  function Held(env: Env, filename: Bytes, input: string, x: Bytes): Option<Client> {
    if IntentsOf(env.gadgets, input).Done? && AnnouncementCodec().ok(Announcement(Tag.Doc, x))
    then Some(Stored(filename, input, IntentsOf(env.gadgets, input).value, x, CidOf(env.sha256, x)))
    else None
  }

  lemma BeginClient(env: Env, s: Shared, c: nat, filename: Bytes, input: string)
    requires ClientAt(s, c).None?
    ensures ClientAt(BeginStep(env, s, c, filename, input), c) == Begun(env, filename, input)
  {
  }

  lemma StoreClient(env: Env, s: Shared, c: nat, filename: Bytes, input: string, x: Bytes)
    requires ClientAt(s, c) == Begun(env, filename, input)
    ensures ClientAt(StoreStep(env, s, c, x), c) == Held(env, filename, input, x)
  {
  }

  lemma ClientBegun(env: Env, steps: seq<Step>, c: nat, filename: Bytes, input: string, others: seq<Step>)
    requires ClientAt(Exec(env, steps), c).None? && AllForeign(c, others)
    ensures ClientAt(Exec(env, steps + [Begin(c, filename, input)] + others), c) == Begun(env, filename, input)
  {
    ForeignSteps(env, steps + [Begin(c, filename, input)], c, others);
    ExecNext(env, steps, Begin(c, filename, input));
    BeginClient(env, Exec(env, steps), c, filename, input);
  }

  lemma ClientHeld(env: Env, steps: seq<Step>, c: nat, filename: Bytes, input: string, x: Bytes, others: seq<Step>)
    requires ClientAt(Exec(env, steps), c) == Begun(env, filename, input) && AllForeign(c, others)
    ensures ClientAt(Exec(env, steps + [Store(c, x)] + others), c) == Held(env, filename, input, x)
  {
    ForeignSteps(env, steps + [Store(c, x)], c, others);
    ExecNext(env, steps, Store(c, x));
    StoreClient(env, Exec(env, steps), c, filename, input, x);
  }

  /** The client just before it registers: gone if its intents did not parse or its ciphertext
      could not be encoded, else holding exactly what it stored. */
  lemma OwnClient(env: Env, steps: seq<Step>, c: nat, filename: Bytes, input: string, before: seq<Step>, x: Bytes,
                  after: seq<Step>)
    requires ClientAt(Exec(env, steps), c).None? && AllForeign(c, before) && AllForeign(c, after)
    ensures ClientAt(Exec(env, steps + OwnSteps(c, filename, input, before, x, after)), c)
         == Held(env, filename, input, x)
  {
    var b, st := Begin(c, filename, input), Store(c, x);
    ClientBegun(env, steps, c, filename, input, before);
    ClientHeld(env, steps + [b] + before, c, filename, input, x, after);
    Regroup(steps, [b], before, [st], after);
  }

  lemma Regroup<T>(a: seq<T>, b: seq<T>, c: seq<T>, d: seq<T>, e: seq<T>)
    ensures a + (b + c + d + e) == a + b + c + d + e
  {
  }

  /** Whether a client's registration goes through, in the state it registers in. */
  predicate Accepted(env: Env, s: Shared, filename: Bytes, input: string, x: Bytes) {
    && IntentsOf(env.gadgets, input).Done? && AnnouncementCodec().ok(Announcement(Tag.Doc, x))
    && Registrable(filename, CidOf(env.sha256, x), IntentsOf(env.gadgets, input).value)
    && filename !in s.registry.entries
  }

  /** Whatever others do before, between and after: when client c comes to register, its name
      is registered with its own ciphertext and string if its call can be encoded and the name
      is free at that very step; otherwise the registry stays as it is. */
  lemma OwnStepsRegister(env: Env, steps: seq<Step>, c: nat, filename: Bytes, input: string, before: seq<Step>,
                         x: Bytes, after: seq<Step>)
    requires ClientAt(Exec(env, steps), c).None? && AllForeign(c, before) && AllForeign(c, after)
    ensures var run := steps + OwnSteps(c, filename, input, before, x, after);
            var s, t := Exec(env, run), Exec(env, run + [Register(c)]);
            if Accepted(env, s, filename, input, x)
            then var entry := Registry.Entry(CidOf(env.sha256, x),
                IntentList().enc(IntentsOf(env.gadgets, input).value));
                 t.registry == Registry.Register(s.registry, filename, entry).0 &&
                     t.origin == s.origin[filename := (x, input)]
            else t.registry == s.registry && t.origin == s.origin
  {
    var run := steps + OwnSteps(c, filename, input, before, x, after);
    OwnClient(env, steps, c, filename, input, before, x, after);
    ExecNext(env, run, Register(c));
    if ClientAt(Exec(env, run), c).Some? { RegisterShape(Exec(env, run), c); }
  }

  /** With no step of anybody in between, a client's three steps are the call itself. */
  lemma EncryptIsThreeSteps(env: Env, s: Shared, c: nat, filename: Bytes, input: string, x: Bytes)
    requires c !in s.clients
    ensures var t := RegisterStep(StoreStep(env, BeginStep(env, s, c, filename, input), c, x), c);
            var (after, q, result) := Encrypt(env, s.docs, s.registry, Some(x), filename, input);
            && t.docs == after && t.registry == q && t.clients == s.clients
            && t.origin == (if result == Done(()) then s.origin[filename := (x, input)] else s.origin)
  {
    hide IntentsOf, AddDoc, RegisterIntent;
    var b := BeginStep(env, s, c, filename, input);
    var h := StoreStep(env, b, c, x);
    match IntentsOf(env.gadgets, input)
    case Done(intents) =>
      assert b.clients == s.clients[c := Parsed(filename, input, intents)];
      match AddDoc(env.sha256, env.cidText, s.docs, x) {
        case Done((docs, cid)) =>
          assert h.clients == s.clients[c := Stored(filename, input, intents, x, cid)];
          assert h.clients - {c} == s.clients;
        case _ =>
          assert h.clients == s.clients;
      }
    case _ =>
  }

  // ---- What every run keeps ----

  /** SHA-256 tells these byte strings apart. */
  ghost predicate CollisionFree(sha256: Bytes -> Bytes32, xs: set<Bytes>) {
    forall x, y | x in xs && y in xs :: sha256(x) == sha256(y) ==> x == y
  }

  /** The key of a ciphertext in the document. */
  function CidKey(env: Env, x: Bytes): string { env.cidText(CidOf(env.sha256, x)) }

  /** The CIDs of these ciphertexts are written as different strings, each beginning with `b`. */
  ghost predicate CidStrings(env: Env, xs: set<Bytes>) {
    && (forall x, y | x in xs && y in xs :: CidKey(env, x) == CidKey(env, y) ==>
        CidOf(env.sha256, x) == CidOf(env.sha256, y))
    && (forall x | x in xs :: !OtherKey(CidKey(env, x)))
  }

  /** Neither SHA-256 nor the spelling of CIDs confuses these ciphertexts. */
  ghost predicate CidsApart(env: Env, xs: set<Bytes>) { CidStrings(env, xs) && CollisionFree(env.sha256, xs) }

  ghost predicate Kept(env: Env, docs: Doc, ciphertext: Bytes) {
    var key := CidKey(env, ciphertext);
    var a := Announcement(Tag.Doc, ciphertext);
    key in docs && AnnouncementCodec().ok(a) && docs[key] == AnnouncementCodec().enc(a)
  }

  ghost predicate ClientOk(env: Env, added: set<Bytes>, c: Client) {
    && IntentsOf(env.gadgets, c.input) == Done(c.intents)
    && (c.Stored? ==> c.ciphertext in added && c.cid == CidOf(env.sha256, c.ciphertext))
  }

  /** The entry under a name is the CID of its ciphertext and the intents of its string. */
  ghost predicate EntryOk(env: Env, added: set<Bytes>, filename: Bytes, entry: Registry.Entry,
                          origin: (Bytes, string)) {
    var (ciphertext, input) := origin;
    && ciphertext in added && IntentsOf(env.gadgets, input).Done?
    && var intents := IntentsOf(env.gadgets, input).value;
    && var cid := CidOf(env.sha256, ciphertext);
    && Registrable(filename, cid, intents)
    && entry == Registry.Entry(cid, IntentList().enc(intents))
  }

  ghost predicate DocsOk(env: Env, docs: Doc, added: set<Bytes>) { forall x | x in added :: Kept(env, docs, x) }

  ghost predicate ClientsOk(env: Env, s: Shared) {
    forall c | c in s.clients :: ClientOk(env, s.added, s.clients[c])
  }

  ghost predicate EntriesOk(env: Env, s: Shared) {
    forall f | f in s.registry.entries ::
      f in s.origin && EntryOk(env, s.added, f, s.registry.entries[f], s.origin[f])
  }

  ghost predicate Inv(env: Env, s: Shared) { DocsOk(env, s.docs, s.added) && ClientsOk(env, s) && EntriesOk(env, s) }

  lemma AddKeeps(env: Env, docs: Doc, added: set<Bytes>, x: Bytes)
    requires DocsOk(env, docs, added) && CidsApart(env, added + {x})
    requires AddDoc(env.sha256, env.cidText, docs, x).Done?
    ensures DocsOk(env, AddDoc(env.sha256, env.cidText, docs, x).value.0, added + {x})
  {
    var after := docs[CidKey(env, x) := AnnouncementCodec().enc(Announcement(Tag.Doc, x))];
    forall y | y in added && y != x ensures Kept(env, after, y) {
      CidsDiffer(env, added + {x}, x, y);
      KeptElsewhere(env, docs, y, CidKey(env, x), AnnouncementCodec().enc(Announcement(Tag.Doc, x)));
    }
    assert Kept(env, after, x);
  }

  lemma KeptElsewhere(env: Env, docs: Doc, x: Bytes, key: string, value: Bytes)
    requires Kept(env, docs, x) && key != CidKey(env, x)
    ensures Kept(env, docs[key := value], x)
  {
  }

  lemma CidsDiffer(env: Env, xs: set<Bytes>, x: Bytes, y: Bytes)
    requires CidsApart(env, xs) && x in xs && y in xs && x != y
    ensures CidKey(env, x) != CidKey(env, y)
  {
    assert CidOf(env.sha256, x)[4..] == env.sha256(x) && CidOf(env.sha256, y)[4..] == env.sha256(y);
  }

  lemma MoreAdded(env: Env, s: Shared, t: Shared)
    requires EntriesOk(env, s) && s.added <= t.added && t.registry == s.registry && t.origin == s.origin
    ensures EntriesOk(env, t)
  {
    forall f | f in t.registry.entries ensures EntryOk(env, t.added, f, t.registry.entries[f], t.origin[f]) {
      assert EntryOk(env, s.added, f, s.registry.entries[f], s.origin[f]);
    }
  }

  lemma StoredClient(env: Env, s: Shared, t: Shared, c: nat)
    requires ClientsOk(env, s) && s.added <= t.added && c in t.clients
    requires ClientOk(env, t.added, t.clients[c]) && t.clients == s.clients[c := t.clients[c]]
    ensures ClientsOk(env, t)
  {
    forall d | d in t.clients ensures ClientOk(env, t.added, t.clients[d]) {
      if d != c { assert ClientOk(env, s.added, s.clients[d]); }
    }
  }

  lemma StoreKeeps(env: Env, s: Shared, c: nat, x: Bytes)
    requires Inv(env, s) && CidsApart(env, StoreStep(env, s, c, x).added)
    ensures Inv(env, StoreStep(env, s, c, x))
  {
    hide Registrable, IntentList, IntentsOf;
    if c in s.clients && s.clients[c].Parsed? && AddDoc(env.sha256, env.cidText, s.docs, x).Done? {
      var t := StoreStep(env, s, c, x);
      AddKeeps(env, s.docs, s.added, x);
      MoreAdded(env, s, t);
      StoredClient(env, s, t, c);
    }
  }

  lemma EntryMade(env: Env, added: set<Bytes>, p: Client)
    requires p.Stored? && ClientOk(env, added, p) && Registrable(p.filename, p.cid, p.intents)
    ensures EntryOk(env, added, p.filename, Registry.Entry(p.cid, IntentList().enc(p.intents)), (p.ciphertext, p.input))
  {
  }

  lemma NewEntry(env: Env, s: Shared, t: Shared, f: Bytes, entry: Registry.Entry, origin: (Bytes, string))
    requires EntriesOk(env, s) && EntryOk(env, s.added, f, entry, origin) && t.added == s.added
    requires t.registry.entries == s.registry.entries[f := entry] && t.origin == s.origin[f := origin]
    ensures EntriesOk(env, t)
  {
  }

  lemma RegisterKeeps(env: Env, s: Shared, c: nat)
    requires Inv(env, s)
    ensures Inv(env, RegisterStep(s, c))
  {
    if c in s.clients && s.clients[c].Stored? {
      var p := s.clients[c];
      var t := RegisterStep(s, c);
      RegisterShape(s, c);
      if t.registry != s.registry {
        EntryMade(env, s.added, p);
        NewEntry(env, s, t, p.filename, Registry.Entry(p.cid, IntentList().enc(p.intents)), (p.ciphertext, p.input));
      }
    }
  }

  lemma WriteKeeps(env: Env, s: Shared, key: string, value: Bytes)
    requires Inv(env, s) && CidStrings(env, s.added)
    ensures Inv(env, Apply(env, s, WriteOther(key, value)))
  {
    var t := Apply(env, s, WriteOther(key, value));
    forall x | x in t.added ensures Kept(env, t.docs, x) {
      if OtherKey(key) { KeptElsewhere(env, s.docs, x, key, value); }
    }
  }

  lemma BeginKeeps(env: Env, s: Shared, c: nat, filename: Bytes, input: string)
    requires Inv(env, s)
    ensures Inv(env, BeginStep(env, s, c, filename, input))
  {
  }

  lemma RemoveKeeps(env: Env, s: Shared, filename: Bytes)
    requires Inv(env, s)
    ensures Inv(env, Apply(env, s, Remove(filename)))
  {
  }

  lemma StepKeeps(env: Env, s: Shared, step: Step)
    requires Inv(env, s) && CidsApart(env, Apply(env, s, step).added)
    ensures Inv(env, Apply(env, s, step))
  {
    match step
    case Begin(c, filename, input) => BeginKeeps(env, s, c, filename, input);
    case Store(c, x) => StoreKeeps(env, s, c, x);
    case Register(c) => RegisterKeeps(env, s, c);
    case Remove(filename) => RemoveKeeps(env, s, filename);
    case WriteOther(key, value) => WriteKeeps(env, s, key, value);
  }

  lemma AddedGrows(env: Env, s: Shared, step: Step)
    ensures s.added <= Apply(env, s, step).added
  {
  }

  lemma {:induction false} Reachable(env: Env, steps: seq<Step>)
    requires CidsApart(env, Exec(env, steps).added)
    ensures Inv(env, Exec(env, steps))
  {
    if steps != [] {
      var s, step := Exec(env, steps[..|steps| - 1]), steps[|steps| - 1];
      AddedGrows(env, s, step);
      Reachable(env, steps[..|steps| - 1]);
      StepKeeps(env, s, step);
    }
  }

  /** However encrypting clients, removals and other document writes interleave, every
      registered name reads back as the intents its owner wrote and a CID under which the
      document yields exactly the ciphertext its owner added. */
  lemma NoDanglingRegistration(env: Env, steps: seq<Step>, filename: Bytes)
    requires CidsApart(env, Exec(env, steps).added)
    requires forall x | x in Exec(env, steps).added :: env.cidValid(CidOf(env.sha256, x))
    requires filename in Exec(env, steps).registry.entries
    ensures var s := Exec(env, steps);
            && filename in s.origin
            && var (ciphertext, input) := s.origin[filename];
            && var cid := CidOf(env.sha256, ciphertext);
            && IntentsOf(env.gadgets, input).Done?
            && GetIntent(env.cidValid, s.registry, filename)
               == Done(Some((cid, StripAll(IntentsOf(env.gadgets, input).value))))
            && Fetch(env.cidText, s.docs, cid) == Done(Some(ciphertext))
  {
    var s := Exec(env, steps);
    Reachable(env, steps);
    var (ciphertext, input) := s.origin[filename];
    var cid := CidOf(env.sha256, ciphertext);
    assert Kept(env, s.docs, ciphertext);
    GetStored(env.cidValid, s.registry, filename, cid, IntentsOf(env.gadgets, input).value);
    FetchAnnounced(env.cidText, s.docs, cid, Announcement(Tag.Doc, ciphertext));
  }
}
