/** A file locked with all three gadgets at once: a token balance, a signature and a password. */
module Conjunction {
  import opened Basics
  import opened Intents
  import opened Gadgets
  import opened Stores
  import Decimal
  import Registry = PredicateRegistry
  import Scale
  import Text
  import Utf8

  /** The foreign functions behind the gadgets. */
  datatype World = World(
    chain: TokenChain,
    check: (nat, Bytes, Bytes) -> Outcome<bool, IntentError>,
    sha256: Bytes -> Bytes32)

  /** What the owner demands: at least `minimum` tokens of a contract, a signature, a password. */
  datatype Demand = Demand(address: string, minimum: nat, password: string)

  /** The gadgets a node registers. */
  function AllGadgets(w: World): Registered {
    map["Psp22" := Psp22Gadget(w.chain), "Sr25519" := Sr25519Gadget(w.check), "Password" := PasswordGadget(w.sha256)]
  }

  /** The registry a node sets up when it starts: each gadget is found under its own type name. */
  method SetUpGadgets(w: World) returns (registry: GadgetRegistry)
    ensures fresh(registry) && registry.gadgets == AllGadgets(w)
  {
    registry := new GadgetRegistry();
    registry.Register(PasswordGadget(w.sha256));
    registry.Register(Psp22Gadget(w.chain));
    registry.Register(Sr25519Gadget(w.check));
  }

  function TokenText(d: Demand): string { d.address + "," + Decimal.Show(d.minimum) }

  /** `Psp22(address,minimum) && Sr25519() && Password(password)` */
  function DemandClauses(d: Demand): seq<Clause> {
    [Clause("Psp22", TokenText(d)), Clause("Sr25519", ""), Clause("Password", d.password)]
  }

  ghost predicate Expressed(d: Demand) {
    ',' !in d.address && Expressible(Clause("Psp22", TokenText(d))) && Expressible(Clause("Password", d.password))
  }

  /** The contract the owner named: 32 zero bytes if the text spells no address. */
  ghost predicate Named(w: World, d: Demand, contract: Bytes32) {
    Spells(w.chain.contractOf, Text.Trim(d.address), contract)
  }

  function DemandIntents(w: World, d: Demand, contract: Bytes32): seq<Intent> {
    [Intent("Psp22", contract + ToLE(d.minimum, 16), Some(Psp22Gadget(w.chain))),
     Intent("Sr25519", [], Some(Sr25519Gadget(w.check))),
     Intent("Password", w.sha256(Utf8.Encode(d.password)), Some(PasswordGadget(w.sha256)))]
  }

  lemma DemandExpressible(d: Demand)
    requires Expressed(d)
    ensures AllExpressible(DemandClauses(d))
  {
    hide Expressible;
    SignatureExpressible();
  }

  lemma SignatureExpressible()
    ensures Expressible(Clause("Sr25519", ""))
  {
    NoAmp("Sr25519");
    NoAmp("");
    assert Balanced("");
  }

  lemma TokenBuilds(w: World, d: Demand, contract: Bytes32)
    requires ',' !in d.address && Named(w, d, contract)
    ensures if d.minimum < U128_LIMIT
            then BuiltAs(AllGadgets(w), DemandClauses(d)[0], DemandIntents(w, d, contract)[0])
            else RefusedAs(AllGadgets(w), DemandClauses(d)[0], Failed(ParseError))
  {
    StatementOf(w.chain, d.address, d.minimum);
    if d.minimum < U128_LIMIT {
      var statement := Psp22Statement(w.chain, TokenText(d)).value;
      SpellsOne(w.chain.contractOf, Text.Trim(d.address), contract);
      SpellsOne(w.chain.contractOf, Text.Trim(d.address), statement[..32]);
      assert statement == statement[..32] + statement[32..];
    }
  }

  lemma OthersBuild(w: World, d: Demand, contract: Bytes32)
    ensures BuiltAs(AllGadgets(w), DemandClauses(d)[1], DemandIntents(w, d, contract)[1])
    ensures BuiltAs(AllGadgets(w), DemandClauses(d)[2], DemandIntents(w, d, contract)[2])
  {
  }

  /** A printed demand parses to its three intents, exactly if its minimum is a u128. */
  lemma DemandParses(w: World, d: Demand, contract: Bytes32)
    requires Expressed(d) && Named(w, d, contract)
    ensures if d.minimum < U128_LIMIT
            then IntentsOf(AllGadgets(w), Print(DemandClauses(d))) == Done(DemandIntents(w, d, contract))
            else IntentsOf(AllGadgets(w), Print(DemandClauses(d))) == Failed(ParseError)
  {
    hide Parse, Print, BuildIntent, Expressible, TokenText, AllGadgets, Psp22Gadget, Named;
    var gadgets, cs := AllGadgets(w), DemandClauses(d);
    DemandExpressible(d);
    ParsePrint(cs);
    TokenBuilds(w, d, contract);
    OthersBuild(w, d, contract);
    if d.minimum < U128_LIMIT {
      IntentsOfDone(gadgets, Print(cs), DemandIntents(w, d, contract));
    } else {
      Refused(gadgets, Print(cs), cs);
    }
  }

  /** A list whose first clause has data its gadget cannot parse. */
  lemma Refused(gadgets: Registered, input: string, cs: seq<Clause>)
    requires Parse(input) == Some(cs) && cs != [] && RefusedAs(gadgets, cs[0], Failed(ParseError))
    ensures IntentsOf(gadgets, input) == Failed(ParseError)
  {
  }

  /** The witnesses: the account that holds the tokens, the signature, the password. */
  function DemandWitnesses(account: string, signature: Bytes, word: string): seq<Bytes> {
    [Utf8.Encode(account), signature, Utf8.Encode(word)]
  }

  /** SHA-256 tells these two apart. */
  ghost predicate Told(w: World, password: string, word: string) {
    w.sha256(Utf8.Encode(word)) == w.sha256(Utf8.Encode(password)) ==> Utf8.Encode(word) == Utf8.Encode(password)
  }

  /** Asked at this height, the contract reports at least the minimum for the holder: behind a
      status byte, the first 16 bytes of its reply. */
  ghost predicate HoldsEnough(w: World, d: Demand, at: nat, contract: Bytes32, holder: Bytes32) {
    match w.chain.balanceOf(at, contract, holder)
    case None => false
    case Some(reply) => |reply| >= 17 && FromLE(reply[1..17]) >= d.minimum
  }

  /** What all three gadgets demand, at the heights at which they run. */
  ghost predicate Met(w: World, d: Demand, heights: nat -> nat, contract: Bytes32, holder: Bytes32,
                      signature: Bytes, word: string) {
    && HoldsEnough(w, d, heights(0), contract, holder)
    && w.check(heights(1), signature, []) == Done(true) && word == d.password
  }

  lemma TokenSatisfied(w: World, d: Demand, at: nat, contract: Bytes32, account: string, holder: Bytes32)
    requires d.minimum < U128_LIMIT && Spells(w.chain.accountOf, account, holder)
    ensures Satisfied(AllGadgets(w), at, StripAll(DemandIntents(w, d, contract))[0], Utf8.Encode(account)) <==>
            HoldsEnough(w, d, at, contract, holder)
  {
    BalanceCompared(w.chain, at, account, holder, contract, d.minimum);
  }

  lemma OthersSatisfied(w: World, d: Demand, at: nat, contract: Bytes32, signature: Bytes, word: string)
    requires Told(w, d.password, word)
    ensures var intents := StripAll(DemandIntents(w, d, contract));
            && (Satisfied(AllGadgets(w), at, intents[1], signature) <==> w.check(at, signature, []) == Done(true))
            && (Satisfied(AllGadgets(w), at, intents[2], Utf8.Encode(word)) <==> word == d.password)
  {
    if w.sha256(Utf8.Encode(word)) == w.sha256(Utf8.Encode(d.password)) { Utf8.Injective(word, d.password); }
  }

  /** The three gadgets accept together exactly when the demand is met by the account the
      witness spells. */
  lemma DemandAccepted(w: World, d: Demand, heights: nat -> nat, contract: Bytes32, account: string,
                       holder: Bytes32, signature: Bytes, word: string)
    requires d.minimum < U128_LIMIT && Told(w, d.password, word) && Spells(w.chain.accountOf, account, holder)
    ensures var intents, ws := StripAll(DemandIntents(w, d, contract)), DemandWitnesses(account, signature, word);
            Accepts(AllGadgets(w), heights, intents, ws) <==> Met(w, d, heights, contract, holder, signature, word)
  {
    hide DemandIntents, AllGadgets, HoldsEnough, Told;
    var intents, ws := StripAll(DemandIntents(w, d, contract)), DemandWitnesses(account, signature, word);
    assert |DemandIntents(w, d, contract)| == 3 by { ThreeIntents(w, d, contract); }
    TokenSatisfied(w, d, heights(0), contract, account, holder);
    OthersSatisfied(w, d, heights(1), contract, signature, word);
    OthersSatisfied(w, d, heights(2), contract, signature, word);
    if Met(w, d, heights, contract, holder, signature, word) {
      forall k: nat | k < 3 ensures Satisfied(AllGadgets(w), heights(k), intents[k], ws[k]) {}
    }
  }

  lemma ThreeIntents(w: World, d: Demand, contract: Bytes32)
    ensures |DemandIntents(w, d, contract)| == 3
  {
  }

  /** All the way: the owner's printed demand parses, is registered under a free name, and reads
      back; and the encoded witnesses are accepted exactly when, at the heights at which the
      gadgets run, the contract the owner named reports at least the minimum for the account the
      first witness spells, the signature checks, and the word is the password. */
  lemma DemandEndToEnd(w: World, d: Demand, contract: Bytes32, cidValid: Bytes -> bool, r: Registry.Registry,
                       filename: Bytes, cid: Bytes, heights: nat -> nat, account: string, holder: Bytes32,
                       signature: Bytes, word: string)
    requires Expressed(d) && d.minimum < U128_LIMIT
    requires Named(w, d, contract) && Spells(w.chain.accountOf, account, holder) && Told(w, d.password, word)
    requires cidValid(cid) && filename !in r.entries && Registrable(filename, cid, DemandIntents(w, d, contract))
    requires Witnesses().ok(DemandWitnesses(account, signature, word))
    ensures IntentsOf(AllGadgets(w), Print(DemandClauses(d))) == Done(DemandIntents(w, d, contract))
    ensures var intents := DemandIntents(w, d, contract);
            var (q, result) := RegisterIntent(r, filename, cid, intents);
            var raw := Witnesses().enc(DemandWitnesses(account, signature, word));
            && result == Done(()) && GetIntent(cidValid, q, filename) == Done(Some((cid, StripAll(intents))))
            && (Verify(AllGadgets(w), heights, StripAll(intents), raw) == Done(true) <==>
                  Met(w, d, heights, contract, holder, signature, word))
  {
    hide Registrable, GetIntent, RegisterIntent, Expressed, Met, Named, Spells, Told, DemandIntents;
    hide DemandWitnesses, Witnesses;
    DemandParses(w, d, contract);
    RegisterThenGet(cidValid, r, filename, cid, DemandIntents(w, d, contract));
    var ws := DemandWitnesses(account, signature, word);
    WitnessesLawful();
    Scale.Decodes(Witnesses(), ws, []);
    VerifyExact(AllGadgets(w), heights, StripAll(DemandIntents(w, d, contract)), Witnesses().enc(ws));
    DemandAccepted(w, d, heights, contract, account, holder, signature, word);
  }
}
