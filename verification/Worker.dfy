/** What a worker does with one decryption request: decode the witness, read the registry
    once, verify every intent, fetch the ciphertext, and send a partial decryption. */
module Worker {
  import opened Basics
  import opened Gadgets
  import opened RequestPool
  import opened Stores
  import opened Wire
  import Hex
  import Scale
  import Registry = PredicateRegistry

  /** The foreign functions and the gadgets of a node. `shareOf` is a node's partial
      decryption of a ciphertext (`None`: it does not deserialise or cannot be decrypted,
      which panics), `reachable` whether a location parses as an endpoint. */
  datatype Env = Env(
    gadgets: Registered,
    cidValid: Bytes -> bool,
    cidText: Bytes -> string,
    shareOf: (nat, Bytes) -> Option<Bytes>,
    reachable: Bytes -> bool)

  datatype Verdict = Release(message: Bytes) | Nothing | Panic

  /** A request opened: the CID and intents the registry gave for its filename, and the
      witness bytes. */
  datatype Opened = Opened(cid: Bytes, intents: seq<Intent>, raw: Bytes)

  /** `None` is a panic: malformed hexadecimal, or no usable registry entry. */
  function Open(env: Env, r: Registry.Registry, req: Request): Option<Opened> {
    var raw :- Hex.Decode(req.witnessHex);
    match GetIntent(env.cidValid, r, req.filename)
    case Done(Some((cid, intents))) => Some(Opened(cid, intents, raw))
    case _ => None
  }

  /** After verification: the ciphertext stored under the CID, and the message for it. */
  function Finish(env: Env, docs: Doc, index: nat, req: Request, cid: Bytes): Verdict {
    match Fetch(env.cidText, docs, cid)
    case Done(None) => Nothing
    case Done(Some(ciphertext)) => Seal(env, index, req, ciphertext)
    case _ => Panic
  }

  function Seal(env: Env, index: nat, req: Request, ciphertext: Bytes): Verdict {
    var share := env.shareOf(index, ciphertext);
    if share.None? || index >= 256 then Panic
    else
      var m := PartialDecryption(req.filename, index, share.value);
      if PartialDecryptionCodec().ok(m) && env.reachable(req.location) then Release(PartialDecryptionCodec().enc(m))
          else Panic
  }

  /** `process_decryption_request`, run without interruption. */
  function Process(env: Env, r: Registry.Registry, heights: nat -> nat, docs: Doc, index: nat, req: Request): Verdict {
    match Open(env, r, req)
    case None => Panic
    case Some(o) =>
      match Verify(env.gadgets, heights, o.intents, o.raw)
      case Done(true) => Finish(env, docs, index, req, o.cid)
      case Done(false) => Nothing
      case Failed(_) => Nothing
      case Panicked => Panic
  }

  /** The entry registered under the request's filename, and the bytes its witness spells. */
  ghost predicate OpensEntry(r: Registry.Registry, req: Request, o: Opened) {
    && Hex.LowerAll(req.witnessHex) == Hex.Encode(o.raw)
    && req.filename in r.entries && r.entries[req.filename].cid == o.cid
    && IntentList().enc(o.intents) <= r.entries[req.filename].predicateBytes
  }

  /** The message decodes to the request's filename, the index and the share of the ciphertext. */
  ghost predicate CarriesShare(shareOf: (nat, Bytes) -> Option<Bytes>, index: nat, req: Request, ciphertext: Bytes,
                               message: Bytes) {
    && index < 256 && shareOf(index, ciphertext).Some?
    && PartialDecryptionCodec().dec(message)
       == Some((PartialDecryption(req.filename, index, shareOf(index, ciphertext).value), []))
  }

  /** A node's worker and the stores it uses. */
  class DecryptionWorker {
    const registry: GadgetRegistry
    const intentStore: ContractIntentStore
    const docStore: IrohDocStore
    const shareOf: (nat, Bytes) -> Option<Bytes>
    const reachable: Bytes -> bool
    const index: nat

    constructor (registry: GadgetRegistry, intentStore: ContractIntentStore, docStore: IrohDocStore,
                 shareOf: (nat, Bytes) -> Option<Bytes>, reachable: Bytes -> bool, index: nat)
      ensures this.registry == registry && this.intentStore == intentStore && this.docStore == docStore
      ensures this.shareOf == shareOf && this.reachable == reachable && this.index == index
    {
      this.registry, this.intentStore, this.docStore := registry, intentStore, docStore;
      this.shareOf, this.reachable, this.index := shareOf, reachable, index;
    }

    ghost function Environment(): Env
      reads registry
    {
      Env(registry.gadgets, intentStore.cidValid, docStore.cidText, shareOf, reachable)
    }

    /** Decodes the witness and reads the registry, once. What it finds is the entry registered
        under the request's filename and the bytes the witness spells in hexadecimal. */
    method OpenRequest(req: Request) returns (o: Option<Opened>)
      ensures o == Open(Environment(), intentStore.contract.Storage(), req)
      ensures o.Some? ==> OpensEntry(intentStore.contract.Storage(), req, o.value)
    {
      var raw := Hex.Decode(req.witnessHex);
      if raw.None? {
        return None;
      }
      var found := intentStore.Get(req.filename);
      match found
      case Done(Some((cid, intents))) =>
        Hex.DecodesIff(req.witnessHex, raw.value);
        GetIntentExact(intentStore.cidValid, intentStore.contract.Storage(), req.filename);
        return Some(Opened(cid, intents, raw.value));
      case _ => return None;
    }

    /** Fetches the ciphertext and seals this node's share of it for the requester: what is
        released decodes to the share of the ciphertext under that CID, and nothing is done
        exactly when there is none. */
    method SendShare(req: Request, cid: Bytes) returns (v: Verdict)
      ensures v == Finish(Environment(), docStore.docs, index, req, cid)
      ensures v == Nothing <==> docStore.cidText(cid) !in docStore.docs
      ensures v.Release? ==>
                var f := Fetch(docStore.cidText, docStore.docs, cid);
                f.Done? && f.value.Some? && CarriesShare(shareOf, index, req, f.value.value, v.message)
    {
      var fetched := docStore.FetchData(cid);
      match fetched
      case Done(None) => return Nothing;
      case Done(Some(ciphertext)) =>
        var share := shareOf(index, ciphertext);
        if share.None? || index >= 256 {
          return Panic;
        }
        var m := PartialDecryption(req.filename, index, share.value);
        if !PartialDecryptionCodec().ok(m) || !reachable(req.location) {
          return Panic;
        }
        SealedMessage(Environment(), index, req, ciphertext);
        return Release(PartialDecryptionCodec().enc(m));
      case _ => return Panic;
    }

    method ProcessDecryptionRequest(req: Request, heights: nat -> nat) returns (v: Verdict)
      ensures v == Process(Environment(), intentStore.contract.Storage(), heights, docStore.docs, index, req)
    {
      hide Open, Verify, Finish;
      var found := OpenRequest(req);
      if found.None? {
        return Panic;
      }
      var o := found.value;
      var verified := registry.VerifyIntents(heights, o.intents, o.raw);
      match verified
      case Failed(_) => return Nothing;
      case Panicked => return Panic;
      case Done(accepted) =>
        if !accepted {
          return Nothing;
        }
        v := SendShare(req, o.cid);
    }
  }

  /** An opened request: its witness bytes, and what the registry read answered. */
  lemma OpenReads(env: Env, r: Registry.Registry, req: Request)
    requires Open(env, r, req).Some?
    ensures var o := Open(env, r, req).value;
            Hex.Decode(req.witnessHex) == Some(o.raw) &&
                GetIntent(env.cidValid, r, req.filename) == Done(Some((o.cid, o.intents)))
  {
  }

  /** A released message decodes to the request's filename, the node's index, and the
      node's share of the very ciphertext stored under the CID the registry gave. */
  lemma ReleasedMessage(env: Env, docs: Doc, index: nat, req: Request, cid: Bytes)
    requires Finish(env, docs, index, req, cid).Release?
    ensures index < 256
    ensures var f := Fetch(env.cidText, docs, cid);
            && f.Done? && f.value.Some? && env.shareOf(index, f.value.value).Some?
            && PartialDecryptionCodec().dec(Finish(env, docs, index, req, cid).message)
               == Some((PartialDecryption(req.filename, index, env.shareOf(index, f.value.value).value), []))
  {
    var f := Fetch(env.cidText, docs, cid);
    SealedMessage(env, index, req, f.value.value);
  }

  /** A message is made exactly when there is a ciphertext under the CID, its share can be made,
      the index fits into a byte, the message can be encoded, and the location parses; nothing is
      done exactly when there is no ciphertext; in every other case the worker panics. */
  lemma FinishExact(env: Env, docs: Doc, index: nat, req: Request, cid: Bytes)
    ensures var v, f := Finish(env, docs, index, req, cid), Fetch(env.cidText, docs, cid);
            && (v == Nothing <==> f == Done(None))
            && (v.Release? <==>
                  && f.Done? && f.value.Some? && index < 256 && env.reachable(req.location)
                  && var share := env.shareOf(index, f.value.value);
                  && share.Some? && |req.filename| <= U32_MAX && |share.value| <= U32_MAX)
  {
    hide Fetch;
    Scale.BlobLawful();
  }

  lemma SealedMessage(env: Env, index: nat, req: Request, ciphertext: Bytes)
    requires Seal(env, index, req, ciphertext).Release?
    ensures index < 256 && env.shareOf(index, ciphertext).Some?
    ensures PartialDecryptionCodec().dec(Seal(env, index, req, ciphertext).message)
            == Some((PartialDecryption(req.filename, index, env.shareOf(index, ciphertext).value), []))
  {
    PartialDecryptionsLawful();
    Scale.Decodes(PartialDecryptionCodec(),
        PartialDecryption(req.filename, index, env.shareOf(index, ciphertext).value), []);
  }
}
