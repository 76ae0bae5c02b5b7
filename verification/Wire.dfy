/** What crosses the wire: requests, registry entries, intents, announcements and partial
    decryptions, all SCALE encoded. */
module Wire {
  import opened Basics
  import opened Scale
  import opened Gadgets
  import opened RequestPool
  import Registry = PredicateRegistry
  import Utf8
  import Hex
  import Text

  // ---- Requests ----

  function RequestCodec(): Codec<Request> {
    Via(Pair(Blob(), Pair(Blob(), Blob())),
        (p: (Bytes, (Bytes, Bytes))) => Some(Request(p.0, p.1.0, p.1.1)),
        (r: Request) => (r.filename, (r.witnessHex, r.location)),
        (_: Request) => true)
  }

  function RequestList(): Codec<seq<Request>> { Vec(RequestCodec()) }

  lemma RequestsLawful()
    ensures Lawful(RequestCodec()) && Lawful(RequestList())
  {
    BlobLawful();
    PairLawful(Blob(), Blob());
    PairLawful(Blob(), Pair(Blob(), Blob()));
    ViaLawful(Pair(Blob(), Pair(Blob(), Blob())),
              (p: (Bytes, (Bytes, Bytes))) => Some(Request(p.0, p.1.0, p.1.1)),
              (r: Request) => (r.filename, (r.witnessHex, r.location)),
              (_: Request) => true);
    VecLawful(RequestCodec());
  }

  // ---- Registry entries ----

  function EntryCodec(): Codec<Registry.Entry> {
    Via(Pair(Blob(), Blob()),
        (p: (Bytes, Bytes)) => Some(Registry.Entry(p.0, p.1)),
        (e: Registry.Entry) => (e.cid, e.predicateBytes),
        (_: Registry.Entry) => true)
  }

  function EntryReply(): Codec<Option<Registry.Entry>> { Opt(EntryCodec()) }

  lemma EntriesLawful()
    ensures Lawful(EntryReply())
  {
    BlobLawful();
    PairLawful(Blob(), Blob());
    ViaLawful(Pair(Blob(), Blob()),
              (p: (Bytes, Bytes)) => Some(Registry.Entry(p.0, p.1)),
              (e: Registry.Entry) => (e.cid, e.predicateBytes),
              (_: Registry.Entry) => true);
    OptLawful(EntryCodec());
  }

  /** The arguments of `register_predicate`. */
  function RegisterArgs(): Codec<(Bytes, (Bytes, Bytes))> { Pair(Blob(), Pair(Blob(), Blob())) }

  lemma RegisterArgsLawful()
    ensures Lawful(RegisterArgs())
  {
    BlobLawful();
    PairLawful(Blob(), Blob());
    PairLawful(Blob(), Pair(Blob(), Blob()));
  }

  // ---- Intents ----

  /** The gadget field is skipped: not written, and `None` when read back. */
  function IntentCodec(): Codec<Intent> {
    Via(Pair(Utf8.Text(), Blob()),
        (p: (string, Bytes)) => Some(Intent(p.0, p.1, None)),
        (i: Intent) => (i.typ, i.statement),
        (i: Intent) => i.gadget.None?)
  }

  function IntentList(): Codec<seq<Intent>> { Vec(IntentCodec()) }

  lemma IntentsLawful()
    ensures Lawful(IntentCodec()) && Lawful(IntentList())
  {
    BlobLawful();
    Utf8.TextLawful();
    PairLawful(Utf8.Text(), Blob());
    ViaLawful(Pair(Utf8.Text(), Blob()),
              (p: (string, Bytes)) => Some(Intent(p.0, p.1, None)),
              (i: Intent) => (i.typ, i.statement),
              (i: Intent) => i.gadget.None?);
    VecLawful(IntentCodec());
  }

  lemma {:induction false} EncodeAllAlike<T>(c: Codec<T>, xs: seq<T>, ys: seq<T>)
    requires |xs| == |ys| && forall k | 0 <= k < |xs| :: c.enc(xs[k]) == c.enc(ys[k])
    ensures EncodeAll(c, xs) == EncodeAll(c, ys)
  {
    if xs != [] { EncodeAllAlike(c, xs[1..], ys[1..]); }
  }

  lemma StripEncodes(i: Intent)
    ensures IntentCodec().enc(i) == IntentCodec().enc(Strip(i))
  {
  }

  lemma EncodeAllStripped(intents: seq<Intent>)
    ensures EncodeAll(IntentCodec(), intents) == EncodeAll(IntentCodec(), StripAll(intents))
  {
    forall k | 0 <= k < |intents| ensures IntentCodec().enc(intents[k]) == IntentCodec().enc(StripAll(intents)[k]) {
      StripEncodes(intents[k]);
    }
    EncodeAllAlike(IntentCodec(), intents, StripAll(intents));
  }

  /** Exactly the intents without a gadget and with short enough parts are encoded faithfully. */
  lemma IntentOk(i: Intent)
    ensures IntentCodec().ok(i) <==> i.gadget.None? && |Utf8.Encode(i.typ)| <= U32_MAX && |i.statement| <= U32_MAX
  {
    hide Utf8.Encode;
    BlobLawful();
  }

  /** An intent list reads back as itself with the gadgets gone, trailing bytes untouched. */
  lemma IntentListRoundTrip(intents: seq<Intent>, rest: Bytes)
    requires IntentList().ok(StripAll(intents))
    ensures IntentList().dec(IntentList().enc(intents) + rest) == Some((StripAll(intents), rest))
    ensures IntentList().dec(IntentList().enc(intents)) == Some((StripAll(intents), []))
  {
    IntentsLawful();
    EncodeAllStripped(intents);
    assert IntentList().enc(intents) == IntentList().enc(StripAll(intents));
    Decodes(IntentList(), StripAll(intents), rest);
  }

  // ---- Announcements and partial decryptions ----

  datatype Tag = Config | Hint | Doc | SystemKeys | DecryptionRequest

  datatype Announcement = Announcement(tag: Tag, data: Bytes)

  function TagIndex(t: Tag): byte {
    match t case Config => 0 case Hint => 1 case Doc => 2 case SystemKeys => 3 case DecryptionRequest => 4
  }

  function TagOf(x: byte): Option<Tag> {
    if x == 0 then Some(Config) else if x == 1 then Some(Hint) else if x == 2 then Some(Doc)
    else if x == 3 then Some(SystemKeys) else if x == 4 then Some(DecryptionRequest) else None
  }

  function AnnouncementOf(p: (byte, Bytes)): Option<Announcement> {
    var t :- TagOf(p.0);
    Some(Announcement(t, p.1))
  }

  function AnnouncementFields(a: Announcement): (byte, Bytes) { (TagIndex(a.tag), a.data) }

  function AnnouncementCodec(): Codec<Announcement> {
    Via(Pair(U8(), Blob()), AnnouncementOf, AnnouncementFields, (_: Announcement) => true)
  }

  lemma AnnouncementsLawful()
    ensures Lawful(AnnouncementCodec())
  {
    U8Lawful();
    BlobLawful();
    PairLawful(U8(), Blob());
    forall a: Announcement ensures AnnouncementOf(AnnouncementFields(a)) == Some(a) {}
    forall p: (byte, Bytes) | AnnouncementOf(p).Some? ensures AnnouncementFields(AnnouncementOf(p).value) == p {}
    ViaLawful(Pair(U8(), Blob()), AnnouncementOf, AnnouncementFields, (_: Announcement) => true);
  }

  datatype PartialDecryption = PartialDecryption(filename: Bytes, index: byte, share: Bytes)

  function PartialDecryptionCodec(): Codec<PartialDecryption> {
    Via(Pair(Blob(), Pair(U8(), Blob())),
        (p: (Bytes, (byte, Bytes))) => Some(PartialDecryption(p.0, p.1.0, p.1.1)),
        (m: PartialDecryption) => (m.filename, (m.index, m.share)),
        (_: PartialDecryption) => true)
  }

  lemma PartialDecryptionsLawful()
    ensures Lawful(PartialDecryptionCodec())
  {
    U8Lawful();
    BlobLawful();
    PairLawful(U8(), Blob());
    PairLawful(Blob(), Pair(U8(), Blob()));
    ViaLawful(Pair(Blob(), Pair(U8(), Blob())),
              (p: (Bytes, (byte, Bytes))) => Some(PartialDecryption(p.0, p.1.0, p.1.1)),
              (m: PartialDecryption) => (m.filename, (m.index, m.share)),
              (_: PartialDecryption) => true);
  }

  /** What is on the wire: the fields one behind the other as the types declare them, a present
      option behind a byte 1, an absent one as a byte 0, and tags numbered as declared. */
  lemma Layouts(r: Request, e: Registry.Entry, i: Intent, a: Announcement, m: PartialDecryption)
    ensures RequestCodec().enc(r) == Blob().enc(r.filename) + (Blob().enc(r.witnessHex) + Blob().enc(r.location))
    ensures EntryReply().enc(None) == [0]
    ensures EntryReply().enc(Some(e)) == [1] + (Blob().enc(e.cid) + Blob().enc(e.predicateBytes))
    ensures IntentCodec().enc(i) == Blob().enc(Utf8.Encode(i.typ)) + Blob().enc(i.statement)
    ensures AnnouncementCodec().enc(a) == [TagIndex(a.tag)] + Blob().enc(a.data)
    ensures [TagIndex(Config), TagIndex(Hint), TagIndex(Doc), TagIndex(SystemKeys), TagIndex(DecryptionRequest)]
            == [0, 1, 2, 3, 4]
    ensures PartialDecryptionCodec().enc(m) == Blob().enc(m.filename) + ([m.index] + Blob().enc(m.share))
  {
    hide Blob;
    var fields := AnnouncementFields(a);
    assert AnnouncementCodec().enc(a) == Pair(U8(), Blob()).enc(fields) == U8().enc(fields.0) + Blob().enc(fields.1);
  }

  // ---- Witnesses, from the command line to the request ----

  /** The witness string of a decryption command: trimmed, cut at commas, each piece trimmed. */
  function SplitWitnesses(s: string): seq<string> { TrimAll(Text.Split(",", Text.Trim(s))) }

  function TrimAll(parts: seq<string>): (r: seq<string>)
    ensures |r| == |parts|
  {
    seq(|parts|, k requires 0 <= k < |parts| => Text.Trim(parts[k]))
  }

  function BytesOf(ws: seq<string>): (r: seq<Bytes>)
    ensures |r| == |ws|
  {
    seq(|ws|, k requires 0 <= k < |ws| => Utf8.Encode(ws[k]))
  }

  /** `encode_witnesses`: SCALE, then lower-case hexadecimal. */
  function EncodeWitnesses(ws: seq<string>): Bytes { Hex.Encode(Witnesses().enc(BytesOf(ws))) }

  /** What a worker makes of a request's witness field: `None` is a panic. */
  function DecodeWitnesses(witnessHex: Bytes): Option<seq<Bytes>> {
    var raw :- Hex.Decode(witnessHex);
    var (ws, _) :- Witnesses().dec(raw);
    Some(ws)
  }

  lemma WitnessesRoundTrip(ws: seq<string>)
    requires Witnesses().ok(BytesOf(ws))
    ensures Hex.Decode(EncodeWitnesses(ws)) == Some(Witnesses().enc(BytesOf(ws)))
    ensures DecodeWitnesses(EncodeWitnesses(ws)) == Some(BytesOf(ws))
  {
    var raw := Witnesses().enc(BytesOf(ws));
    Hex.RoundTrip(raw);
    WitnessesLawful();
    assert raw + [] == raw;
    assert Witnesses().dec(raw + []) == Some((BytesOf(ws), []));
  }

  ghost predicate CommaWords(ws: seq<string>) {
    forall k | 0 <= k < |ws| :: ',' !in ws[k] && Text.Trimmed(ws[k])
  }

  lemma CommaWordsKept(ws: seq<string>)
    requires ws != [] && CommaWords(ws)
    ensures SplitWitnesses(Text.Join(",", ws)) == ws
  {
    JoinTrimmed(ws);
    Text.TrimmedIff(Text.Join(",", ws));
    forall k | 0 <= k < |ws| ensures Text.Cuttable(",", ws[k]) && !Text.Has(",", ws[k]) && Text.Trim(ws[k]) == ws[k] {
      Text.CharCuttable(',', ws[k]);
      Text.TrimmedIff(ws[k]);
    }
    Text.SplitJoin(",", ws);
    assert TrimAll(ws) == ws;
  }

  /** Whatever the string, its pieces are free of commas and trimmed. */
  lemma PiecesAreCommaWords(s: string)
    ensures CommaWords(SplitWitnesses(s))
  {
    var parts := Text.Split(",", Text.Trim(s));
    forall k | 0 <= k < |parts| ensures ',' !in Text.Trim(parts[k]) && Text.Trimmed(Text.Trim(parts[k])) {
      Text.PartsFree(",", Text.Trim(s), k);
      var u, v := Text.TrimShape(parts[k]);
      Text.CharCuttable(',', parts[k]);
      var w := Text.Trim(parts[k]);
      assert forall i | 0 <= i < |w| :: w[i] == parts[k][|u| + i];
    }
  }

  /** Cutting the comma-joined words gives the words back exactly when every word is free
      of commas and has no white space at its ends. */
  lemma SplitWitnessesIff(ws: seq<string>)
    requires ws != []
    ensures SplitWitnesses(Text.Join(",", ws)) == ws <==> CommaWords(ws)
  {
    PiecesAreCommaWords(Text.Join(",", ws));
    if CommaWords(ws) { CommaWordsKept(ws); }
  }

  lemma {:induction false} JoinTrimmed(ws: seq<string>)
    requires ws != [] && forall k | 0 <= k < |ws| :: Text.Trimmed(ws[k])
    ensures Text.Trimmed(Text.Join(",", ws))
    decreases |ws|
  {
    if |ws| > 1 { JoinTrimmed(ws[1..]); }
  }
}
