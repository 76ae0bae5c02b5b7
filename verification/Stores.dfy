/** The stores a node works with: intents in the registry contract, requests in the pool
    contract, ciphertexts in the shared document. Every call is encoded by the caller,
    decoded by the contract, and its reply decoded again. */
module Stores {
  import opened Basics
  import opened Scale
  import opened Gadgets
  import opened RequestPool
  import opened Wire
  import Registry = PredicateRegistry

  datatype StoreError = Rejected | Undecodable

  // ---- The registry contract, called with encoded arguments ----

  /** A call whose arguments do not decode, or whose message answers with an error, is
      rolled back and reported to the caller as failed. */
  function CallRegister(r: Registry.Registry, data: Bytes): (Registry.Registry, bool) {
    match RegisterArgs().dec(data)
    case None => (r, false)
    case Some(((filename, (cid, predicateBytes)), _)) =>
      var (q, reply) := Registry.Register(r, filename, Registry.Entry(cid, predicateBytes));
      (q, reply.Ok?)
  }

  function CallRemove(r: Registry.Registry, data: Bytes): (Registry.Registry, bool) {
    match Blob().dec(data)
    case None => (r, false)
    case Some((filename, _)) => var (q, reply) := Registry.Remove(r, filename); (q, reply.Ok?)
  }

  /** The reply to `read`: a status byte, then the entry if there is one. */
  function CallRead(r: Registry.Registry, data: Bytes): Option<Bytes> {
    var (filename, _) :- Blob().dec(data);
    var entry := Registry.Read(r, filename);
    if EntryReply().ok(entry) then Some([0] + EntryReply().enc(entry)) else None
  }

  // ---- Intents ----

  /** What fits into the call: a vector of 2^32 elements or more makes encoding panic. */
  predicate Registrable(filename: Bytes, cid: Bytes, intents: seq<Intent>) {
    && |filename| <= U32_MAX && |cid| <= U32_MAX
    && IntentList().ok(StripAll(intents)) && |IntentList().enc(intents)| <= U32_MAX
  }

  function RegisterData(filename: Bytes, cid: Bytes, intents: seq<Intent>): Bytes {
    Blob().enc(filename) + Blob().enc(cid) + Blob().enc(IntentList().enc(intents))
  }

  function RegisterIntent(r: Registry.Registry, filename: Bytes, cid: Bytes, intents: seq<Intent>):
    (Registry.Registry, Outcome<(), StoreError>)
  {
    if !Registrable(filename, cid, intents) then (r, Panicked)
    else
      var (q, ok) := CallRegister(r, RegisterData(filename, cid, intents));
      (q, if ok then Done(()) else Failed(Rejected))
  }

  /** What the caller makes of the reply to `read`. The intents and the CID are unwrapped. */
  function DecodeEntry(cidValid: Bytes -> bool, reply: Bytes): Outcome<Option<(Bytes, seq<Intent>)>, StoreError> {
    match EntryReply().dec(Body(reply))
    case None => Failed(Undecodable)
    case Some((None, _)) => Done(None)
    case Some((Some(e), _)) =>
      match IntentList().dec(e.predicateBytes)
      case None => Panicked
      case Some((intents, _)) => if cidValid(e.cid) then Done(Some((e.cid, intents))) else Panicked
  }

  function GetIntent(cidValid: Bytes -> bool, r: Registry.Registry, filename: Bytes):
    Outcome<Option<(Bytes, seq<Intent>)>, StoreError>
  {
    if |filename| > U32_MAX then Panicked
    else match CallRead(r, Blob().enc(filename))
      case None => Failed(Rejected)
      case Some(reply) => DecodeEntry(cidValid, reply)
  }

  function RemoveIntent(r: Registry.Registry, filename: Bytes): (Registry.Registry, Outcome<(), StoreError>) {
    if |filename| > U32_MAX then (r, Panicked)
    else
      var (q, ok) := CallRemove(r, Blob().enc(filename));
      (q, if ok then Done(()) else Failed(Rejected))
  }

  class ContractIntentStore {
    const contract: Registry.RegistryContract
    const cidValid: Bytes -> bool

    constructor (contract: Registry.RegistryContract, cidValid: Bytes -> bool)
      ensures this.contract == contract && this.cidValid == cidValid
    {
      this.contract, this.cidValid := contract, cidValid;
    }

    /** The contract decodes its arguments and runs the message. */
    method WriteRegister(data: Bytes) returns (ok: bool)
      modifies contract
      ensures (contract.Storage(), ok) == CallRegister(old(contract.Storage()), data)
    {
      var args := RegisterArgs().dec(data);
      if args.None? {
        return false;
      }
      var ((filename, (cid, predicateBytes)), _) := args.value;
      var reply := contract.RegisterPredicate(filename, cid, predicateBytes);
      return reply.Ok?;
    }

    method Register(filename: Bytes, cid: Bytes, intents: seq<Intent>) returns (r: Outcome<(), StoreError>)
      modifies contract
      ensures (contract.Storage(), r) == RegisterIntent(old(contract.Storage()), filename, cid, intents)
    {
      if !Registrable(filename, cid, intents) {
        r := Panicked;
        return;
      }
      var intentBytes := IntentList().enc(intents);
      var data := ArgumentBuffer(filename, cid, intentBytes);
      var ok := WriteRegister(data);
      r := if ok then Done(()) else Failed(Rejected);
    }

    /** The call data, built up in a buffer: the contract reads the three arguments back. */
    static method ArgumentBuffer(filename: Bytes, cid: Bytes, intentBytes: Bytes) returns (data: Bytes)
      ensures data == Blob().enc(filename) + Blob().enc(cid) + Blob().enc(intentBytes)
      ensures ReadsBack(filename, cid, intentBytes, data)
    {
      hide Blob, ReadsBack;
      data := [];
      data := data + Blob().enc(filename);
      data := data + Blob().enc(cid);
      data := data + Blob().enc(intentBytes);
      assert data == Blob().enc(filename) + Blob().enc(cid) + Blob().enc(intentBytes);
      BufferReadsBack(filename, cid, intentBytes);
    }

    /** The contract decodes the filename and answers: behind the status byte, the reply is the
        entry under that name. */
    method ReadReply(data: Bytes) returns (r: Option<Bytes>)
      ensures r == CallRead(contract.Storage(), data)
      ensures r.Some? ==>
                && Blob().dec(data).Some?
                && EntryReply().dec(Body(r.value)) ==
                    Some((Registry.Read(contract.Storage(), Blob().dec(data).value.0), []))
    {
      var args := Blob().dec(data);
      if args.None? {
        return None;
      }
      var entry := contract.ReadEntry(args.value.0);
      if !EntryReply().ok(entry) {
        return None;
      }
      ReplyDecodes(entry);
      return Some([0] + EntryReply().enc(entry));
    }

    method Get(filename: Bytes) returns (r: Outcome<Option<(Bytes, seq<Intent>)>, StoreError>)
      ensures r == GetIntent(cidValid, contract.Storage(), filename)
    {
      if |filename| > U32_MAX {
        return Panicked;
      }
      var call: Bytes := [];
      call := call + Blob().enc(filename);
      assert call == Blob().enc(filename);
      var reply := ReadReply(call);
      if reply.None? {
        return Failed(Rejected);
      }
      r := DecodeReply(cidValid, reply.value);
    }

    /** Only a reply that encodes no entry, or an entry whose bytes begin with the encoding of
        the intents, is read as such. */
    static method DecodeReply(cidValid: Bytes -> bool, reply: Bytes)
      returns (r: Outcome<Option<(Bytes, seq<Intent>)>, StoreError>)
      ensures r == DecodeEntry(cidValid, reply)
      ensures r == Done(None) ==> EntryReply().enc(None) <= Body(reply)
      ensures r.Done? && r.value.Some? ==>
                var (cid, intents) := r.value.value;
                cidValid(cid) && exists predicateBytes: Bytes :: RepliesWith(reply, cid, predicateBytes, intents)
    {
      ReplyExact(reply);
      var data := reply;
      if data != [] {
        data := data[1..];
      }
      match EntryReply().dec(data)
      case None => return Failed(Undecodable);
      case Some((None, _)) => return Done(None);
      case Some((Some(e), _)) =>
        var intents := IntentList().dec(e.predicateBytes);
        if intents.None? || !cidValid(e.cid) {
          return Panicked;
        }
        ReadIntents(e.predicateBytes);
        assert RepliesWith(reply, e.cid, e.predicateBytes, intents.value.0);
        return Done(Some((e.cid, intents.value.0)));
    }

    /** The contract decodes the filename and removes its entry. */
    method WriteRemove(data: Bytes) returns (ok: bool)
      modifies contract
      ensures (contract.Storage(), ok) == CallRemove(old(contract.Storage()), data)
    {
      var args := Blob().dec(data);
      if args.None? {
        return false;
      }
      var reply := contract.RemovePredicate(args.value.0);
      return reply.Ok?;
    }

    method Remove(filename: Bytes) returns (r: Outcome<(), StoreError>)
      modifies contract
      ensures (contract.Storage(), r) == RemoveIntent(old(contract.Storage()), filename)
    {
      if |filename| > U32_MAX {
        r := Panicked;
        return;
      }
      var data: Bytes := [];
      data := data + Blob().enc(filename);
      assert data == Blob().enc(filename);
      var ok := WriteRemove(data);
      r := if ok then Done(()) else Failed(Rejected);
    }
  }

  /** If no argument is too long to encode, the contract reads all three back. */
  ghost predicate ReadsBack(filename: Bytes, cid: Bytes, intentBytes: Bytes, data: Bytes) {
    |filename| <= U32_MAX && |cid| <= U32_MAX && |intentBytes| <= U32_MAX ==>
      RegisterArgs().dec(data) == Some(((filename, (cid, intentBytes)), []))
  }

  lemma BufferReadsBack(filename: Bytes, cid: Bytes, intentBytes: Bytes)
    ensures ReadsBack(filename, cid, intentBytes, Blob().enc(filename) + Blob().enc(cid) + Blob().enc(intentBytes))
  {
    if |filename| <= U32_MAX && |cid| <= U32_MAX && |intentBytes| <= U32_MAX {
      RegisterDataDecodes(filename, cid, intentBytes);
    }
  }

  /** The reply encodes an entry with this CID, whose bytes begin with these intents. */
  ghost predicate RepliesWith(reply: Bytes, cid: Bytes, predicateBytes: Bytes, intents: seq<Intent>) {
    EntryReply().enc(Some(Registry.Entry(cid, predicateBytes))) <= Body(reply) &&
        IntentList().enc(intents) <= predicateBytes
  }

  lemma ReplyExact(reply: Bytes)
    ensures EntryReply().dec(Body(reply)).Some? ==>
        EntryReply().enc(EntryReply().dec(Body(reply)).value.0) <= Body(reply)
  {
    EntriesLawful();
    if EntryReply().dec(Body(reply)).Some? { Decoded(EntryReply(), Body(reply)); }
  }

  /** A reply behind its status byte. */
  lemma BodyDecodes<T(!new)>(c: Codec<T>, x: T)
    requires Lawful(c) && c.ok(x)
    ensures c.dec(Body([0] + c.enc(x))) == Some((x, []))
  {
    Decodes(c, x, []);
    assert Body([0] + c.enc(x)) == c.enc(x);
  }

  lemma ReplyDecodes(entry: Option<Registry.Entry>)
    requires EntryReply().ok(entry)
    ensures EntryReply().dec(Body([0] + EntryReply().enc(entry))) == Some((entry, []))
  {
    EntriesLawful();
    BodyDecodes(EntryReply(), entry);
  }

  lemma RegisterDataDecodes(filename: Bytes, cid: Bytes, predicateBytes: Bytes)
    requires |filename| <= U32_MAX && |cid| <= U32_MAX && |predicateBytes| <= U32_MAX
    ensures RegisterArgs().dec(Blob().enc(filename) + Blob().enc(cid) + Blob().enc(predicateBytes))
         == Some(((filename, (cid, predicateBytes)), []))
  {
    var args := (filename, (cid, predicateBytes));
    var (f, c, p) := (Blob().enc(filename), Blob().enc(cid), Blob().enc(predicateBytes));
    assert RegisterArgs().enc(args) == f + (c + p) == f + c + p;
    BlobLawful();
    RegisterArgsLawful();
    Decodes(RegisterArgs(), args, []);
  }

  /** The registry receives exactly the filename, CID and encoded intents that were sent. */
  lemma RegisterArrives(r: Registry.Registry, filename: Bytes, cid: Bytes, intents: seq<Intent>)
    requires Registrable(filename, cid, intents)
    ensures var (q, reply) := Registry.Register(r, filename, Registry.Entry(cid, IntentList().enc(intents)));
            CallRegister(r, RegisterData(filename, cid, intents)) == (q, reply.Ok?)
  {
    RegisterDataDecodes(filename, cid, IntentList().enc(intents));
  }

  /** Registration succeeds exactly when the call can be encoded and the name is free. */
  lemma RegisterOutcome(r: Registry.Registry, filename: Bytes, cid: Bytes, intents: seq<Intent>)
    ensures var (q, result) := RegisterIntent(r, filename, cid, intents);
            var accepted := Registrable(filename, cid, intents) && filename !in r.entries;
            && (result == Done(()) <==> accepted)
            && q == (if accepted then Registry.Register(r, filename, Registry.Entry(cid, IntentList().enc(intents))).0
                else r)
  {
    if Registrable(filename, cid, intents) {
      RegisterArrives(r, filename, cid, intents);
    }
  }

  /** A successful call to `read` delivers the entry stored under the filename, if any. */
  lemma ReadArrives(r: Registry.Registry, filename: Bytes)
    requires |filename| <= U32_MAX
    ensures CallRead(r, Blob().enc(filename)).Some? <==> EntryReply().ok(Registry.Read(r, filename))
    ensures CallRead(r, Blob().enc(filename)).Some? ==>
              EntryReply().dec(Body(CallRead(r, Blob().enc(filename)).value)) == Some((Registry.Read(r, filename), []))
  {
    BlobLawful();
    Decodes(Blob(), filename, []);
    var entry := Registry.Read(r, filename);
    if EntryReply().ok(entry) { ReplyDecodes(entry); }
  }

  lemma EntryFits(e: Registry.Entry)
    ensures EntryReply().ok(Some(e)) <==> |e.cid| <= U32_MAX && |e.predicateBytes| <= U32_MAX
  {
    BlobLawful();
  }

  /** Reading a filename yields its entry's CID and the list its predicate bytes encode. */
  lemma GetStored(cidValid: Bytes -> bool, r: Registry.Registry, filename: Bytes, cid: Bytes, intents: seq<Intent>)
    requires Registrable(filename, cid, intents) && cidValid(cid)
    requires filename in r.entries && r.entries[filename] == Registry.Entry(cid, IntentList().enc(intents))
    ensures GetIntent(cidValid, r, filename) == Done(Some((cid, StripAll(intents))))
  {
    ReadArrives(r, filename);
    EntryFits(r.entries[filename]);
    IntentListRoundTrip(intents, []);
  }

  /** Registering under a fresh filename and reading it back yields the CID and the intents
      with their gadget fields gone. */
  lemma RegisterThenGet(cidValid: Bytes -> bool, r: Registry.Registry, filename: Bytes, cid: Bytes,
                        intents: seq<Intent>)
    requires Registrable(filename, cid, intents) && cidValid(cid) && filename !in r.entries
    ensures var (q, result) := RegisterIntent(r, filename, cid, intents);
            result == Done(()) && GetIntent(cidValid, q, filename) == Done(Some((cid, StripAll(intents))))
  {
    RegisterArrives(r, filename, cid, intents);
    GetStored(cidValid, RegisterIntent(r, filename, cid, intents).0, filename, cid, intents);
  }

  /** Removing an intent just registered restores the registry, list order included. */
  lemma RemoveUndoesIntent(r: Registry.Registry, filename: Bytes, cid: Bytes, intents: seq<Intent>)
    requires Registry.Agrees(r) && Registrable(filename, cid, intents) && filename !in r.entries
    ensures RemoveIntent(RegisterIntent(r, filename, cid, intents).0, filename) == (r, Done(()))
  {
    RegisterArrives(r, filename, cid, intents);
    Registry.RemoveUndoesRegister(r, filename, Registry.Entry(cid, IntentList().enc(intents)));
    BlobLawful();
    Decodes(Blob(), filename, []);
  }

  /** Removal succeeds exactly when the name can be encoded and has an entry, which then goes,
      every other staying; else the registry stays as it is. */
  lemma RemoveOutcome(r: Registry.Registry, filename: Bytes)
    ensures var (q, result) := RemoveIntent(r, filename);
            && (result.Done? <==> |filename| <= U32_MAX && filename in r.entries)
            && (result.Done? ==> q.entries == r.entries - {filename})
            && (!result.Done? ==> q == r && result == if |filename| > U32_MAX then Panicked else Failed(Rejected))
  {
    if |filename| <= U32_MAX {
      BlobLawful();
      Decodes(Blob(), filename, []);
    }
  }

  /** Nothing else can be read: an answer comes from the entry stored under that very
      filename, its CID unchanged, its bytes the encoding of the intents and a rest. */
  lemma GetIntentExact(cidValid: Bytes -> bool, r: Registry.Registry, filename: Bytes)
    requires GetIntent(cidValid, r, filename).Done?
    ensures match GetIntent(cidValid, r, filename).value
            case None => filename !in r.entries
            case Some((cid, intents)) =>
              && filename in r.entries && r.entries[filename].cid == cid && cidValid(cid)
              && IntentList().enc(intents) <= r.entries[filename].predicateBytes
              && forall k | 0 <= k < |intents| :: intents[k].gadget.None?
  {
    ReadArrives(r, filename);
    if filename in r.entries {
      ReadIntents(r.entries[filename].predicateBytes);
    }
  }

  /** How a read ends, for every registry and every name: without an entry there is nothing; an
      entry too long to send back is an error; bytes that decode to no intents, and a CID that is
      none, panic; and else its CID and the intents its bytes decode to are the answer. */
  lemma GetOutcome(cidValid: Bytes -> bool, r: Registry.Registry, filename: Bytes)
    ensures GetIntent(cidValid, r, filename) ==
            if |filename| > U32_MAX then Panicked
            else if filename !in r.entries then Done(None)
            else
              var e := r.entries[filename];
              if |e.cid| > U32_MAX || |e.predicateBytes| > U32_MAX then Failed(Rejected)
              else if IntentList().dec(e.predicateBytes).None? || !cidValid(e.cid) then Panicked
              else Done(Some((e.cid, IntentList().dec(e.predicateBytes).value.0)))
  {
    hide IntentList, EntryReply, Blob;
    if |filename| <= U32_MAX {
      ReadArrives(r, filename);
      if filename in r.entries { EntryFits(r.entries[filename]); } else { NothingFits(); }
    }
  }

  lemma NothingFits()
    ensures EntryReply().ok(None)
  {
  }

  lemma ReadIntents(b: Bytes)
    requires IntentList().dec(b).Some?
    ensures var (intents, _) := IntentList().dec(b).value;
            IntentList().enc(intents) <= b && forall k | 0 <= k < |intents| :: intents[k].gadget.None?
  {
    IntentsLawful();
    Decoded(IntentList(), b);
    var (intents, _) := IntentList().dec(b).value;
    VecOk(IntentCodec(), intents);
    forall k | 0 <= k < |intents| ensures intents[k].gadget.None? {
      assert IntentCodec().ok(intents[k]);
    }
  }

  // ---- Requests ----

  function CallAdd(hash: Bytes -> Bytes, p: Pool, data: Bytes): (Pool, bool) {
    match RequestCodec().dec(data)
    case None => (p, false)
    case Some((r, _)) => var (q, reply) := Add(hash, p, r); (q, reply.Ok?)
  }

  /** The caller's side of `add`. */
  function SubmitRequest(hash: Bytes -> Bytes, p: Pool, req: Request): (Pool, Outcome<(), StoreError>) {
    if !RequestCodec().ok(req) then (p, Panicked)
    else
      var (q, ok) := CallAdd(hash, p, RequestCodec().enc(req));
      (q, if ok then Done(()) else Failed(Rejected))
  }

  /** What the pool answers to `read_all`; encoding 2^32 or more requests panics. */
  function CallReadAll(p: Pool): Option<Bytes> {
    if RequestList().ok(ReadAll(p)) then Some([0] + RequestList().enc(ReadAll(p))) else None
  }

  /** The caller's side of `read_all`. */
  function FetchRequests(p: Pool): Option<seq<Request>> {
    var reply :- CallReadAll(p);
    var (requests, _) :- RequestList().dec(Body(reply));
    Some(requests)
  }

  class InkContractPool {
    const contract: RequestPoolContract

    constructor (contract: RequestPoolContract)
      ensures this.contract == contract
    {
      this.contract := contract;
    }

    /** The contract decodes its arguments and runs the message. */
    method WriteAdd(data: Bytes) returns (ok: bool)
      modifies contract
      ensures (contract.Storage(), ok) == CallAdd(contract.hash, old(contract.Storage()), data)
    {
      var args := RequestCodec().dec(data);
      if args.None? {
        return false;
      }
      var req := args.value.0;
      var reply := contract.AddRequest(req.filename, req.witnessHex, req.location);
      return reply.Ok?;
    }

    method Add(req: Request) returns (r: Outcome<(), StoreError>)
      modifies contract
      ensures (contract.Storage(), r) == SubmitRequest(contract.hash, old(contract.Storage()), req)
    {
      if !RequestCodec().ok(req) {
        r := Panicked;
        return;
      }
      var ok := WriteAdd(RequestCodec().enc(req));
      r := if ok then Done(()) else Failed(Rejected);
    }

    method ReadAllRequests() returns (r: Option<seq<Request>>)
      ensures r == FetchRequests(contract.Storage())
    {
      var all := contract.Requests();
      if !RequestList().ok(all) {
        return None;
      }
      var data := [0] + RequestList().enc(all);
      if data != [] {
        data := data[1..];
      }
      var decoded := RequestList().dec(data);
      if decoded.None? {
        return None;
      }
      return Some(decoded.value.0);
    }
  }

  /** A request arrives in the pool as it was sent. */
  lemma AddArrives(hash: Bytes -> Bytes, p: Pool, req: Request)
    requires RequestCodec().ok(req)
    ensures CallAdd(hash, p, RequestCodec().enc(req)) == (Add(hash, p, req).0, Add(hash, p, req).1 == Ok)
  {
    RequestsLawful();
    Decodes(RequestCodec(), req, []);
  }

  /** Asking the pool to take a request in succeeds exactly when the request can be encoded and
      the pool takes it; else the pool stays as it is. */
  lemma SubmitOutcome(hash: Bytes -> Bytes, p: Pool, req: Request)
    ensures var (q, result) := SubmitRequest(hash, p, req);
            var accepted := RequestCodec().ok(req) && Add(hash, p, req).1 == Ok;
            && (result.Done? <==> accepted) && q == (if accepted then Add(hash, p, req).0 else p)
            && (!accepted ==> result == if RequestCodec().ok(req) then Failed(Rejected) else Panicked)
  {
    if RequestCodec().ok(req) { AddArrives(hash, p, req); }
  }

  /** A successful read returns the pool's own list, and reads fail only on a list too long
      to encode. */
  lemma FetchFaithful(p: Pool)
    ensures FetchRequests(p) == if RequestList().ok(ReadAll(p)) then Some(ReadAll(p)) else None
  {
    RequestsLawful();
    if RequestList().ok(ReadAll(p)) {
      BodyDecodes(RequestList(), ReadAll(p));
    }
  }

  // ---- Ciphertexts in the shared document ----

  /** The document's entries by key. */
  type Doc = map<string, Bytes>

  /** A version-1 CID of raw data under SHA-256. */
  function CidOf(sha256: Bytes -> Bytes32, data: Bytes): Bytes { [0x01, 0x55, 0x12, 0x20] + sha256(data) }

  function AddDoc(sha256: Bytes -> Bytes32, cidText: Bytes -> string, docs: Doc, data: Bytes): Outcome<(Doc, Bytes),
                  StoreError> {
    var cid := CidOf(sha256, data);
    var a := Announcement(Tag.Doc, data);
    if AnnouncementCodec().ok(a) then Done((docs[cidText(cid) := AnnouncementCodec().enc(a)], cid)) else Panicked
  }

  function Fetch(cidText: Bytes -> string, docs: Doc, cid: Bytes): Outcome<Option<Bytes>, StoreError> {
    if cidText(cid) !in docs then Done(None)
    else match AnnouncementCodec().dec(docs[cidText(cid)])
      case None => Failed(Undecodable)
      case Some((a, _)) => Done(Some(a.data))
  }

  /** The bytes begin with the encoding of this announcement. */
  ghost predicate Announces(b: Bytes, a: Announcement) { AnnouncementCodec().enc(a) <= b }

  lemma AnnouncedData(b: Bytes)
    requires AnnouncementCodec().dec(b).Some?
    ensures var a := AnnouncementCodec().dec(b).value.0; Announces(b, Announcement(a.tag, a.data))
  {
    AnnouncementsLawful();
    Decoded(AnnouncementCodec(), b);
  }

  class IrohDocStore {
    const sha256: Bytes -> Bytes32
    const cidText: Bytes -> string
    var docs: Doc

    constructor (sha256: Bytes -> Bytes32, cidText: Bytes -> string, docs: Doc)
      ensures this.sha256 == sha256 && this.cidText == cidText && this.docs == docs
    {
      this.sha256, this.cidText, this.docs := sha256, cidText, docs;
    }

    method Add(data: Bytes) returns (r: Outcome<Bytes, StoreError>)
      modifies this
      ensures match AddDoc(sha256, cidText, old(docs), data)
              case Done((after, cid)) => docs == after && r == Done(cid)
              case _ => docs == old(docs) && r == Panicked
    {
      var cid := CidOf(sha256, data);
      var a := Announcement(Tag.Doc, data);
      if !AnnouncementCodec().ok(a) {
        return Panicked;
      }
      docs := docs[cidText(cid) := AnnouncementCodec().enc(a)];
      return Done(cid);
    }

    /** Nothing exactly when the key is free; data only if the entry announces that very data. */
    method FetchData(cid: Bytes) returns (r: Outcome<Option<Bytes>, StoreError>)
      ensures r == Fetch(cidText, docs, cid)
      ensures r == Done(None) <==> cidText(cid) !in docs
      ensures r.Done? && r.value.Some? ==> exists tag: Tag ::
          Announces(docs[cidText(cid)], Announcement(tag, r.value.value))
    {
      if cidText(cid) !in docs {
        return Done(None);
      }
      var a := AnnouncementCodec().dec(docs[cidText(cid)]);
      if a.None? {
        return Failed(Undecodable);
      }
      AnnouncedData(docs[cidText(cid)]);
      return Done(Some(a.value.0.data));
    }
  }

  /** An entry holding an announcement yields exactly the data announced. */
  lemma FetchAnnounced(cidText: Bytes -> string, docs: Doc, cid: Bytes, a: Announcement)
    requires AnnouncementCodec().ok(a)
    requires cidText(cid) in docs && docs[cidText(cid)] == AnnouncementCodec().enc(a)
    ensures Fetch(cidText, docs, cid) == Done(Some(a.data))
  {
    AnnouncementsLawful();
    Decodes(AnnouncementCodec(), a, []);
  }

  /** Exactly the entries that begin with the encoding of an announcement yield data, the data
      announced; a free key yields nothing, and any other entry is an error. */
  lemma FetchIff(cidText: Bytes -> string, docs: Doc, cid: Bytes, x: Bytes)
    ensures var f := Fetch(cidText, docs, cid);
            && (f == Done(Some(x)) <==> cidText(cid) in docs && exists tag: Tag ::
                  AnnouncementCodec().ok(Announcement(tag, x)) && Announces(docs[cidText(cid)], Announcement(tag, x)))
            && (f == Done(None) <==> cidText(cid) !in docs)
            && (!f.Done? ==> f == Failed(Undecodable))
  {
    hide AnnouncementCodec;
    AnnouncementsLawful();
    if cidText(cid) in docs {
      var b := docs[cidText(cid)];
      if AnnouncementCodec().dec(b).Some? {
        Decoded(AnnouncementCodec(), b);
        var a := AnnouncementCodec().dec(b).value.0;
        assert a == Announcement(a.tag, a.data) && Announces(b, Announcement(a.tag, a.data));
      }
      if tag: Tag :| AnnouncementCodec().ok(Announcement(tag, x)) && Announces(b, Announcement(tag, x)) {
        var e := AnnouncementCodec().enc(Announcement(tag, x));
        assert b == e + b[|e|..];
        Decodes(AnnouncementCodec(), Announcement(tag, x), b[|e|..]);
      }
    }
  }

  /** What was added can be fetched under the CID returned. */
  lemma AddThenFetch(sha256: Bytes -> Bytes32, cidText: Bytes -> string, docs: Doc, data: Bytes)
    requires AddDoc(sha256, cidText, docs, data).Done?
    ensures var (after, cid) := AddDoc(sha256, cidText, docs, data).value;
            Fetch(cidText, after, cid) == Done(Some(data))
  {
    var (after, cid) := AddDoc(sha256, cidText, docs, data).value;
    FetchAnnounced(cidText, after, cid, Announcement(Tag.Doc, data));
  }
}
