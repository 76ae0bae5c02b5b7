/** Gadgets: the registry, the parsing of intents through it, and the verification of a
    conjunction of intents against an encoded list of witnesses. */
module Gadgets {
  import opened Basics
  import opened Scale
  import opened Intents
  import Text
  import Utf8
  import Decimal

  datatype IntentError =
    | ParseError
    | VerificationError(what: string)
    | UnknownIntentType(typ: string)

  /** A gadget: its type name, how it reads intent data, and how it judges a witness
      against a statement when the chain stands at a given height. */
  datatype Gadget = Gadget(
    typeId: string,
    parseData: string -> Outcome<Bytes, IntentError>,
    verifyWitness: (nat, Bytes, Bytes) -> Outcome<bool, IntentError>)

  type Registered = map<string, Gadget>

  datatype Intent = Intent(typ: string, statement: Bytes, gadget: Option<Gadget>)

  // ---- Parsing intents ----

  function BuildIntent(gadgets: Registered, c: Clause): Outcome<Intent, IntentError> {
    if c.typ !in gadgets then Failed(UnknownIntentType(c.typ))
    else match gadgets[c.typ].parseData(c.data)
      case Done(statement) => Done(Intent(c.typ, statement, Some(gadgets[c.typ])))
      case Failed(e) => Failed(e)
      case Panicked => Panicked
  }

  /** Clauses are turned into intents in order; the first that fails decides the result. */
  function BuildFrom(gadgets: Registered, cs: seq<Clause>, k: nat, built: seq<Intent>):
    Outcome<seq<Intent>, IntentError>
    requires k <= |cs|
    decreases |cs| - k
  {
    if k == |cs| then Done(built)
    else match BuildIntent(gadgets, cs[k])
      case Done(i) => BuildFrom(gadgets, cs, k + 1, built + [i])
      case Failed(e) => Failed(e)
      case Panicked => Panicked
  }

  function IntentsOf(gadgets: Registered, input: string): Outcome<seq<Intent>, IntentError> {
    match Parse(input)
    case None => Failed(ParseError)
    case Some(cs) => BuildFrom(gadgets, cs, 0, [])
  }

  /** The clause's type is registered, and the intent carries the statement its gadget makes of
      the data, and the gadget itself. */
  ghost predicate BuiltAs(gadgets: Registered, c: Clause, i: Intent) {
    && c.typ in gadgets && i.typ == c.typ && i.gadget == Some(gadgets[c.typ])
    && gadgets[c.typ].parseData(c.data) == Done(i.statement)
  }

  ghost predicate BuiltFrom(gadgets: Registered, cs: seq<Clause>, intents: seq<Intent>) {
    |intents| == |cs| && forall k | 0 <= k < |cs| :: BuiltAs(gadgets, cs[k], intents[k])
  }

  predicate Buildable(gadgets: Registered, c: Clause) { c.typ in gadgets && gadgets[c.typ].parseData(c.data).Done? }

  /** The clause is refused this way: its type is not registered, or its gadget refuses the data. */
  ghost predicate RefusedAs(gadgets: Registered, c: Clause, r: Outcome<seq<Intent>, IntentError>) {
    if c.typ !in gadgets then r == Failed(UnknownIntentType(c.typ))
    else match gadgets[c.typ].parseData(c.data)
      case Done(_) => false
      case Failed(e) => r == Failed(e)
      case Panicked => r == Panicked
  }

  lemma {:induction false} BuildFromDone(gadgets: Registered, cs: seq<Clause>, k: nat, built: seq<Intent>,
                                         intents: seq<Intent>)
    requires k <= |cs| && BuiltFrom(gadgets, cs[..k], built)
    ensures BuildFrom(gadgets, cs, k, built) == Done(intents) <==>
        BuiltFrom(gadgets, cs, intents) && intents[..k] == built
    decreases |cs| - k
  {
    if k == |cs| {
      assert cs[..k] == cs;
      if |intents| == k { assert intents[..k] == intents; }
    } else {
      match BuildIntent(gadgets, cs[k])
      case Done(i) =>
        var next := built + [i];
        assert cs[..k + 1] == cs[..k] + [cs[k]];
        BuildFromDone(gadgets, cs, k + 1, next, intents);
        if BuiltFrom(gadgets, cs, intents) && intents[..k] == built {
          assert intents[..k + 1] == intents[..k] + [intents[k]];
        }
        if |intents| == |cs| && intents[..k + 1] == next {
          assert intents[..k] == next[..k] == built;
        }
      case _ =>
    }
  }

  /** Parsing through the registry yields exactly one intent per clause, each carrying the
      statement its gadget built and the gadget itself. */
  lemma IntentsOfDone(gadgets: Registered, input: string, intents: seq<Intent>)
    ensures IntentsOf(gadgets, input) == Done(intents)
       <==> Parse(input).Some? && BuiltFrom(gadgets, Parse(input).value, intents)
  {
    if Parse(input).Some? {
      BuildFromDone(gadgets, Parse(input).value, 0, [], intents);
    }
  }

  lemma {:induction false} BuildFromFails(gadgets: Registered, cs: seq<Clause>, k: nat, built: seq<Intent>)
    returns (j: nat)
    requires k <= |cs| && !BuildFrom(gadgets, cs, k, built).Done?
    ensures k <= j < |cs| && RefusedAs(gadgets, cs[j], BuildFrom(gadgets, cs, k, built))
    ensures forall i | k <= i < j :: Buildable(gadgets, cs[i])
    decreases |cs| - k
  {
    match BuildIntent(gadgets, cs[k])
    case Done(i) =>
      j := BuildFromFails(gadgets, cs, k + 1, built + [i]);
    case _ => j := k;
  }

  /** Any other result is that of the string, if it does not parse, or else of the first clause
      that is refused. */
  lemma IntentsOfFails(gadgets: Registered, input: string) returns (j: nat)
    requires !IntentsOf(gadgets, input).Done?
    ensures match Parse(input)
            case None => IntentsOf(gadgets, input) == Failed(ParseError)
            case Some(cs) =>
              && j < |cs| && RefusedAs(gadgets, cs[j], IntentsOf(gadgets, input))
              && forall i | 0 <= i < j :: Buildable(gadgets, cs[i])
  {
    match Parse(input)
    case None => j := 0;
    case Some(cs) => j := BuildFromFails(gadgets, cs, 0, []);
  }

  // ---- Verifying intents ----

  /** `Vec<Vec<u8>>` */
  function Witnesses(): Codec<seq<Bytes>> { Vec(Blob()) }

  lemma WitnessesLawful()
    ensures Lawful(Witnesses())
  {
    BlobLawful();
    VecLawful(Blob());
  }

  function VerifyIntent(gadgets: Registered, at: nat, intent: Intent, wit: Bytes): Outcome<bool, IntentError> {
    match intent.gadget
    case Some(g) => g.verifyWitness(at, wit, intent.statement)
    case None =>
      if intent.typ in gadgets then gadgets[intent.typ].verifyWitness(at, wit, intent.statement)
      else Failed(UnknownIntentType(intent.typ))
  }

  /** What one intent contributes: `None` lets the conjunction go on. */
  function Refusal(gadgets: Registered, at: nat, intent: Intent, wit: Bytes): Option<Outcome<bool, IntentError>> {
    match VerifyIntent(gadgets, at, intent, wit)
    case Done(true) => None
    case Done(false) => Some(Failed(VerificationError(intent.typ)))
    case Failed(e) => Some(Failed(e))
    case Panicked => Some(Panicked)
  }

  /** `heights(k)` is where the chain stands when the k-th gadget runs. */
  function VerifyFrom(gadgets: Registered, heights: nat -> nat, intents: seq<Intent>, ws: seq<Bytes>, k: nat):
    Outcome<bool, IntentError>
    requires |ws| == |intents| && k <= |intents|
    decreases |intents| - k
  {
    if k == |intents| then Done(true)
    else match Refusal(gadgets, heights(k), intents[k], ws[k])
      case Some(r) => r
      case None => VerifyFrom(gadgets, heights, intents, ws, k + 1)
  }

  /** The whole check, from the encoded witnesses. Bytes behind the witness list are ignored. */
  function Verify(gadgets: Registered, heights: nat -> nat, intents: seq<Intent>, wit: Bytes):
    Outcome<bool, IntentError>
  {
    match Witnesses().dec(wit)
    case None => Panicked
    case Some((ws, _)) => if |ws| != |intents| then Panicked else VerifyFrom(gadgets, heights, intents, ws, 0)
  }

  /** The gadget that judges the intent - the one it carries, or else the one registered for
      its type - accepts the witness. */
  predicate Satisfied(gadgets: Registered, at: nat, i: Intent, wit: Bytes) {
    match i.gadget
    case Some(g) => g.verifyWitness(at, wit, i.statement) == Done(true)
    case None => i.typ in gadgets && gadgets[i.typ].verifyWitness(at, wit, i.statement) == Done(true)
  }

  /** How an intent that does not accept ends the check: nobody to judge it, or the answer of
      the gadget that does. */
  ghost predicate EndsWith(gadgets: Registered, at: nat, i: Intent, wit: Bytes, r: Outcome<bool, IntentError>) {
    if i.gadget.None? && i.typ !in gadgets then r == Failed(UnknownIntentType(i.typ))
    else
      var g := if i.gadget.Some? then i.gadget.value else gadgets[i.typ];
      match g.verifyWitness(at, wit, i.statement)
      case Done(true) => false
      case Done(false) => r == Failed(VerificationError(i.typ))
      case Failed(e) => r == Failed(e)
      case Panicked => r == Panicked
  }

  ghost predicate Accepts(gadgets: Registered, heights: nat -> nat, intents: seq<Intent>, ws: seq<Bytes>) {
    |ws| == |intents| && forall k: nat | k < |intents| :: Satisfied(gadgets, heights(k), intents[k], ws[k])
  }

  lemma RefusalExact(gadgets: Registered, at: nat, intent: Intent, wit: Bytes)
    ensures match Refusal(gadgets, at, intent, wit)
            case None => Satisfied(gadgets, at, intent, wit)
            case Some(r) => !Satisfied(gadgets, at, intent, wit) && EndsWith(gadgets, at, intent, wit, r)
  {
  }

  lemma {:induction false} VerifyFromExact(gadgets: Registered, heights: nat -> nat, intents: seq<Intent>,
                                           ws: seq<Bytes>, k: nat)
    requires |ws| == |intents| && k <= |intents|
    requires forall j: nat | j < k :: Satisfied(gadgets, heights(j), intents[j], ws[j])
    ensures VerifyFrom(gadgets, heights, intents, ws, k) != Done(false)
    ensures VerifyFrom(gadgets, heights, intents, ws, k) == Done(true) <==> Accepts(gadgets, heights, intents, ws)
    decreases |intents| - k
  {
    if k < |intents| && Refusal(gadgets, heights(k), intents[k], ws[k]).None? {
      VerifyFromExact(gadgets, heights, intents, ws, k + 1);
    }
  }

  /** The bytes are a list of as many witnesses as there are intents. */
  ghost predicate Fits(intents: seq<Intent>, wit: Bytes) {
    Witnesses().dec(wit).Some? && |Witnesses().dec(wit).value.0| == |intents|
  }

  /** Verification answers `Ok(true)` exactly when the witness list decodes, is as long as
      the intent list, and every gadget accepts its own witness. It never answers `Ok(false)`, and panics when
      the list does not decode or is of another length. */
  lemma VerifyExact(gadgets: Registered, heights: nat -> nat, intents: seq<Intent>, wit: Bytes)
    ensures Verify(gadgets, heights, intents, wit) != Done(false)
    ensures Verify(gadgets, heights, intents, wit) == Done(true) <==>
            Witnesses().dec(wit).Some? && Accepts(gadgets, heights, intents, Witnesses().dec(wit).value.0)
    ensures !Fits(intents, wit) ==> Verify(gadgets, heights, intents, wit) == Panicked
  {
    match Witnesses().dec(wit)
    case None =>
    case Some((ws, _)) => if |ws| == |intents| { VerifyFromExact(gadgets, heights, intents, ws, 0); }
  }

  /** Bytes behind the witness list change nothing. */
  lemma TrailingBytesIgnored(gadgets: Registered, heights: nat -> nat, intents: seq<Intent>, ws: seq<Bytes>,
                             rest: Bytes)
    requires Witnesses().ok(ws)
    ensures Verify(gadgets, heights, intents, Witnesses().enc(ws) + rest) ==
        Verify(gadgets, heights, intents, Witnesses().enc(ws))
  {
    WitnessesLawful();
    Decodes(Witnesses(), ws, rest);
  }

  lemma {:induction false} FirstRefusalFrom(gadgets: Registered, heights: nat -> nat, intents: seq<Intent>,
                                            ws: seq<Bytes>, k: nat)
    returns (j: nat)
    requires |ws| == |intents| && k <= |intents|
    requires VerifyFrom(gadgets, heights, intents, ws, k) != Done(true)
    ensures k <= j < |intents|
    ensures forall i: nat | k <= i < j :: Satisfied(gadgets, heights(i), intents[i], ws[i])
    ensures EndsWith(gadgets, heights(j), intents[j], ws[j], VerifyFrom(gadgets, heights, intents, ws, k))
    decreases |intents| - k
  {
    RefusalExact(gadgets, heights(k), intents[k], ws[k]);
    if Refusal(gadgets, heights(k), intents[k], ws[k]).Some? {
      j := k;
    } else {
      j := FirstRefusalFrom(gadgets, heights, intents, ws, k + 1);
    }
  }

  /** Any other answer on a fitting witness list is the answer of the first intent that does
      not accept, every earlier one having accepted. */
  lemma FirstRefusal(gadgets: Registered, heights: nat -> nat, intents: seq<Intent>, wit: Bytes) returns (j: nat)
    requires Fits(intents, wit) && Verify(gadgets, heights, intents, wit) != Done(true)
    ensures var ws := Witnesses().dec(wit).value.0;
            && j < |intents|
            && (forall i: nat | i < j :: Satisfied(gadgets, heights(i), intents[i], ws[i]))
            && EndsWith(gadgets, heights(j), intents[j], ws[j], Verify(gadgets, heights, intents, wit))
  {
    j := FirstRefusalFrom(gadgets, heights, intents, Witnesses().dec(wit).value.0, 0);
  }

  /** What encoding keeps of an intent: the gadget field is skipped. */
  function Strip(i: Intent): Intent { i.(gadget := None) }

  function StripAll(intents: seq<Intent>): (r: seq<Intent>)
    ensures |r| == |intents|
  {
    seq(|intents|, k requires 0 <= k < |intents| => Strip(intents[k]))
  }

  ghost predicate CarriesOwn(gadgets: Registered, intents: seq<Intent>) {
    forall k | 0 <= k < |intents| && intents[k].gadget.Some? ::
      intents[k].typ in gadgets && intents[k].gadget == Some(gadgets[intents[k].typ])
  }

  lemma {:induction false} StripFrom(gadgets: Registered, heights: nat -> nat, intents: seq<Intent>, ws: seq<Bytes>,
                                     k: nat)
    requires CarriesOwn(gadgets, intents) && |ws| == |intents| && k <= |intents|
    ensures VerifyFrom(gadgets, heights, StripAll(intents), ws, k) == VerifyFrom(gadgets, heights, intents, ws, k)
    decreases |intents| - k
  {
    if k < |intents| {
      StripFrom(gadgets, heights, intents, ws, k + 1);
      assert VerifyIntent(gadgets, heights(k), StripAll(intents)[k], ws[k])
          == VerifyIntent(gadgets, heights(k), intents[k], ws[k]);
    }
  }

  lemma StripVerify(gadgets: Registered, heights: nat -> nat, intents: seq<Intent>, wit: Bytes)
    requires CarriesOwn(gadgets, intents)
    ensures Verify(gadgets, heights, StripAll(intents), wit) == Verify(gadgets, heights, intents, wit)
  {
    match Witnesses().dec(wit)
    case None =>
    case Some((ws, _)) => if |ws| == |intents| { StripFrom(gadgets, heights, intents, ws, 0); }
  }

  lemma BuiltCarriesOwn(gadgets: Registered, cs: seq<Clause>, intents: seq<Intent>)
    requires BuiltFrom(gadgets, cs, intents)
    ensures CarriesOwn(gadgets, intents)
  {
    forall k | 0 <= k < |intents|
      ensures intents[k].typ in gadgets && intents[k].gadget == Some(gadgets[intents[k].typ])
    {
      assert BuildIntent(gadgets, cs[k]) == Done(intents[k]);
    }
  }

  /** Intents parsed through a registry verify the same after the gadget field is lost,
      whatever the witness and however verification ends. */
  lemma SkippedFieldNeutral(gadgets: Registered, heights: nat -> nat, input: string, wit: Bytes)
    requires IntentsOf(gadgets, input).Done?
    ensures var intents := IntentsOf(gadgets, input).value;
            Verify(gadgets, heights, StripAll(intents), wit) == Verify(gadgets, heights, intents, wit)
  {
    var intents := IntentsOf(gadgets, input).value;
    IntentsOfDone(gadgets, input, intents);
    BuiltCarriesOwn(gadgets, Parse(input).value, intents);
    StripVerify(gadgets, heights, intents, wit);
  }

  /** The registry object of a node or a client. */
  class GadgetRegistry {
    var gadgets: Registered

    constructor ()
      ensures gadgets == map[]
    {
      gadgets := map[];
    }

    method Register(g: Gadget)
      modifies this
      ensures gadgets == old(gadgets)[g.typeId := g]
    {
      gadgets := gadgets[g.typeId := g];
    }

    method ParseIntents(input: string) returns (r: Outcome<seq<Intent>, IntentError>)
      ensures r == IntentsOf(gadgets, input)
    {
      var parsed := ParseIntentString(input);
      if parsed.None? {
        return Failed(ParseError);
      }
      var cs := parsed.value;
      var intents: seq<Intent> := [];
      var k := 0;
      while k < |cs|
        invariant 0 <= k <= |cs|
        invariant BuildFrom(gadgets, cs, k, intents) == IntentsOf(gadgets, input)
      {
        match BuildIntent(gadgets, cs[k])
        case Failed(e) => return Failed(e);
        case Panicked => return Panicked;
        case Done(i) =>
          intents := intents + [i];
          k := k + 1;
      }
      return Done(intents);
    }

    method VerifyIntents(heights: nat -> nat, intents: seq<Intent>, wit: Bytes) returns (r: Outcome<bool, IntentError>)
      ensures r == Verify(gadgets, heights, intents, wit)
    {
      var decoded := Witnesses().dec(wit);
      if decoded.None? || |decoded.value.0| != |intents| {
        return Panicked;
      }
      var ws := decoded.value.0;
      var k := 0;
      while k < |intents|
        invariant 0 <= k <= |intents|
        invariant VerifyFrom(gadgets, heights, intents, ws, k) == Verify(gadgets, heights, intents, wit)
      {
        match VerifyIntent(gadgets, heights(k), intents[k], ws[k])
        case Failed(e) => return Failed(e);
        case Panicked => return Panicked;
        case Done(accepted) =>
          if !accepted {
            return Failed(VerificationError(intents[k].typ));
          }
          k := k + 1;
      }
      return Done(true);
    }
  }

  // ---- The gadgets ----

  /** "Password": the statement is the SHA-256 of the data. */
  function PasswordGadget(sha256: Bytes -> Bytes32): Gadget {
    Gadget("Password", data => Done(sha256(Utf8.Encode(data))),
        (at: nat, wit: Bytes, statement: Bytes) => Done(sha256(wit) == statement))
  }

  /** The chain as the token gadget sees it: SS58 decoding, and the reply of a contract to
      a balance query for an account at a height (`None` when the query fails). */
  datatype TokenChain = TokenChain(
    contractOf: string -> Option<Bytes32>,
    accountOf: string -> Option<Bytes32>,
    balanceOf: (nat, Bytes, Bytes) -> Option<Bytes>)

  /** Undecodable addresses become the zero address. */
  function OrZero(a: Option<Bytes32>): Bytes32 { if a.Some? then a.value else seq(32, _ => 0) }

  /** A contract's reply without its status byte. */
  function Body(reply: Bytes): Bytes { if reply == [] then [] else reply[1..] }

  function U128(): Codec<nat> { Fixed(16) }

  function Psp22Statement(chain: TokenChain, data: string): Outcome<Bytes, IntentError> {
    var parts := Text.Split(",", data);
    if |parts| != 2 then Failed(ParseError)
    else match Decimal.ParseU128(Text.Trim(parts[1]))
      case None => Failed(ParseError)
      case Some(n) => Done(OrZero(chain.contractOf(Text.Trim(parts[0]))) + ToLE(n, 16))
  }

  function Psp22Verify(chain: TokenChain, at: nat, wit: Bytes, statement: Bytes): Outcome<bool, IntentError> {
    match Utf8.Decode(wit)
    case None => Panicked
    case Some(account) =>
      if |statement| != 48 then Failed(VerificationError("Statement must be 48 bytes (32 addr + 16 balance)"))
      else match chain.balanceOf(at, statement[..32], OrZero(chain.accountOf(account)))
        case None => Failed(VerificationError("Contract query failed"))
        case Some(reply) =>
          match U128().dec(Body(reply))
          case None => Failed(VerificationError("Decode failed"))
          case Some((balance, _)) => Done(balance >= FromLE(statement[32..48]))
  }

  function Psp22Gadget(chain: TokenChain): Gadget {
    Gadget("Psp22", data => Psp22Statement(chain, data),
        (at: nat, wit: Bytes, statement: Bytes) => Psp22Verify(chain, at, wit, statement))
  }

  /** "Sr25519": takes no data; signature checking itself is foreign code. */
  function Sr25519Gadget(check: (nat, Bytes, Bytes) -> Outcome<bool, IntentError>): Gadget {
    Gadget("Sr25519", _ => Done([]), check)
  }

  lemma CommaSplit(a: string, b: string)
    requires ',' !in a && ',' !in b
    ensures Text.Split(",", a + "," + b) == [a, b]
  {
    Text.CharCuttable(',', a);
    Text.CharCuttable(',', b);
    var parts := [a, b];
    assert parts[1..] == [b];
    assert Text.Join(",", parts) == a + "," + b;
    Text.SplitJoin(",", parts);
  }

  lemma {:induction false} NumeralTrimmed(n: nat)
    ensures Text.Trim(Decimal.Show(n)) == Decimal.Show(n) && ',' !in Decimal.Show(n)
  {
    var s := Decimal.Show(n);
    assert forall i | 0 <= i < |s| :: Decimal.IsDigit(s[i]);
    assert forall i | 0 <= i < |s| :: !Text.White(s[i]) && s[i] != ',';
    Text.TrimmedIff(s);
  }

  lemma StatementParts(contract: Bytes32, minimum: Bytes)
    requires |minimum| == 16
    ensures var s := contract + minimum; |s| == 48 && s[..32] == contract && s[32..48] == minimum
  {
  }

  /** The address these characters spell, or 32 zero bytes if they spell none. */
  ghost predicate Spells(decode: string -> Option<Bytes32>, text: string, address: Bytes) {
    match decode(text)
    case Some(a) => address == a
    case None => |address| == 32 && forall k | 0 <= k < 32 :: address[k] == 0
  }

  lemma SpellsOne(decode: string -> Option<Bytes32>, text: string, address: Bytes)
    ensures Spells(decode, text, address) <==> address == OrZero(decode(text))
  {
    if Spells(decode, text, address) { assert address == OrZero(decode(text)); }
  }

  /** Written in decimal, the minimum balance is refused exactly when it is no u128; else the
      statement is the address spelled before the comma, then the minimum in 16 bytes. */
  lemma StatementOf(chain: TokenChain, address: string, n: nat)
    requires ',' !in address
    ensures var r := Psp22Statement(chain, address + "," + Decimal.Show(n));
            if n >= U128_LIMIT then r == Failed(ParseError)
            else r.Done? && |r.value| == 48
                 && Spells(chain.contractOf, Text.Trim(address), r.value[..32]) && r.value[32..] == ToLE(n, 16)
  {
    NumeralTrimmed(n);
    CommaSplit(address, Decimal.Show(n));
    Decimal.ParseShow(n);
    var contract := OrZero(chain.contractOf(Text.Trim(address)));
    StatementParts(contract, ToLE(n, 16));
    SpellsOne(chain.contractOf, Text.Trim(address), contract);
  }

  /** The verdict the chain's answer to a balance query leads to, when at least n tokens are
      demanded: behind the status byte, the first 16 bytes are the balance. */
  ghost predicate Judged(answer: Option<Bytes>, n: nat, r: Outcome<bool, IntentError>) {
    match answer
    case None => r == Failed(VerificationError("Contract query failed"))
    case Some(reply) =>
      if |reply| < 17 then r == Failed(VerificationError("Decode failed"))
      else r == Done(FromLE(reply[1..17]) >= n)
  }

  lemma ReplyBalance(reply: Bytes)
    ensures U128().dec(Body(reply)) ==
            if |reply| < 17 then None else Some((FromLE(reply[1..17]), reply[17..]))
  {
    if |reply| >= 17 { assert Body(reply)[..16] == reply[1..17] && Body(reply)[16..] == reply[17..]; }
  }

  /** The chain is asked, at the height of the check, for the balance that the contract of the
      statement reports for the account the witness spells; its answer decides. */
  lemma BalanceAsked(chain: TokenChain, at: nat, account: string, holder: Bytes, statement: Bytes)
    requires |statement| == 48 && Spells(chain.accountOf, account, holder)
    ensures Judged(chain.balanceOf(at, statement[..32], holder), FromLE(statement[32..]),
                   Psp22Verify(chain, at, Utf8.Encode(account), statement))
  {
    Utf8.RoundTrip(account);
    SpellsOne(chain.accountOf, account, holder);
    assert statement[32..48] == statement[32..];
    match chain.balanceOf(at, statement[..32], holder)
    case None =>
    case Some(reply) => ReplyBalance(reply);
  }

  /** A witness that is no UTF-8 panics, and a statement of another length is an error. */
  lemma BalanceNotAsked(chain: TokenChain, at: nat, wit: Bytes, statement: Bytes)
    requires Utf8.Decode(wit).None? || |statement| != 48
    ensures Psp22Verify(chain, at, wit, statement) ==
            if Utf8.Decode(wit).None? then Panicked
            else Failed(VerificationError("Statement must be 48 bytes (32 addr + 16 balance)"))
  {
  }

  lemma BalanceCompared(chain: TokenChain, at: nat, account: string, holder: Bytes, contract: Bytes32, n: nat)
    requires n < U128_LIMIT && Spells(chain.accountOf, account, holder)
    ensures Judged(chain.balanceOf(at, contract, holder), n,
                   Psp22Verify(chain, at, Utf8.Encode(account), contract + ToLE(n, 16)))
  {
    StatementParts(contract, ToLE(n, 16));
    assert (contract + ToLE(n, 16))[32..] == ToLE(n, 16);
    BalanceAsked(chain, at, account, holder, contract + ToLE(n, 16));
    Pow256Values();
    LERoundTrip(n, 16);
  }

  /** The token gadget, for every natural number n written in decimal: the statement exists
      exactly when n is a u128; and then a witness that spells an account is accepted exactly
      when the contract spelled before the comma reports at least n for that account, a failed
      or unreadable query being an error. Text that spells no address stands for 32 zero bytes. */
  lemma Psp22Exact(chain: TokenChain, address: string, n: nat, at: nat, account: string, contract: Bytes,
                   holder: Bytes)
    requires ',' !in address
    requires Spells(chain.contractOf, Text.Trim(address), contract) && Spells(chain.accountOf, account, holder)
    ensures var r := Psp22Statement(chain, address + "," + Decimal.Show(n));
            if n >= U128_LIMIT then r == Failed(ParseError)
            else r.Done? && |r.value| == 48 && r.value[..32] == contract
                 && Judged(chain.balanceOf(at, contract, holder), n,
                           Psp22Verify(chain, at, Utf8.Encode(account), r.value))
  {
    StatementOf(chain, address, n);
    if n < U128_LIMIT {
      var statement := Psp22Statement(chain, address + "," + Decimal.Show(n)).value;
      SpellsOne(chain.contractOf, Text.Trim(address), contract);
      SpellsOne(chain.contractOf, Text.Trim(address), statement[..32]);
      BalanceAsked(chain, at, account, holder, statement);
      Pow256Values();
      LERoundTrip(n, 16);
    }
  }

  /** Data the token gadget accepts: one comma, and behind it a u128 numeral. */
  ghost predicate TokenData(data: string, a: string, b: string) {
    data == a + "," + b && ',' !in a && ',' !in b && Decimal.ParseU128(Text.Trim(b)).Some?
  }

  lemma TokenStatement(chain: TokenChain, data: string, a: string, b: string)
    requires TokenData(data, a, b)
    ensures Psp22Statement(chain, data).Done? && |Psp22Statement(chain, data).value| == 48
    ensures Spells(chain.contractOf, Text.Trim(a), Psp22Statement(chain, data).value[..32])
    ensures FromLE(Psp22Statement(chain, data).value[32..]) == Decimal.ParseU128(Text.Trim(b)).value
  {
    CommaSplit(a, b);
    SpellsOne(chain.contractOf, Text.Trim(a), OrZero(chain.contractOf(Text.Trim(a))));
    var n := Decimal.ParseU128(Text.Trim(b)).value;
    Pow256Values();
    LERoundTrip(n, 16);
    StatementParts(OrZero(chain.contractOf(Text.Trim(a))), ToLE(n, 16));
  }

  /** Data is accepted by the token gadget exactly when it has one comma and what follows
      it, trimmed, is a u128 numeral; anything else is a parse error. The statement then is the
      address spelled before the comma, and determines the number. */
  lemma Psp22StatementIff(chain: TokenChain, data: string)
    ensures Psp22Statement(chain, data).Done? <==> exists a: string, b: string :: TokenData(data, a, b)
    ensures !Psp22Statement(chain, data).Done? ==> Psp22Statement(chain, data) == Failed(ParseError)
    ensures forall a: string, b: string | TokenData(data, a, b) ::
              && |Psp22Statement(chain, data).value| == 48
              && Spells(chain.contractOf, Text.Trim(a), Psp22Statement(chain, data).value[..32])
              && FromLE(Psp22Statement(chain, data).value[32..]) == Decimal.ParseU128(Text.Trim(b)).value
  {
    var parts := Text.Split(",", data);
    if Psp22Statement(chain, data).Done? {
      Text.JoinSplit(",", data);
      assert parts[1..] == [parts[1]];
      Text.PartsFree(",", data, 0);
      Text.PartsFree(",", data, 1);
      Text.CharCuttable(',', parts[0]);
      Text.CharCuttable(',', parts[1]);
      assert TokenData(data, parts[0], parts[1]);
    }
    forall a: string, b: string | TokenData(data, a, b)
      ensures Psp22Statement(chain, data).Done? && |Psp22Statement(chain, data).value| == 48
      ensures Spells(chain.contractOf, Text.Trim(a), Psp22Statement(chain, data).value[..32])
      ensures FromLE(Psp22Statement(chain, data).value[32..]) == Decimal.ParseU128(Text.Trim(b)).value
    {
      TokenStatement(chain, data, a, b);
    }
  }
}
