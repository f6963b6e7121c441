/**
 * Deposit attestations (`GET /deposit/:nums`, `GET /depositutility/:nums`):
 * for the requested token numbers, two index-aligned arrays (ids, and trait
 * values in 18-decimal fixed point) and the configured wallet's signature
 * over their packed encoding behind the collection's configured address.
 */
module Deposit {
  import opened Wrappers
  import opened FixedPoint
  import opened AbiPacked
  import opened PersonalSign
  import opened TraitStore
  import opened Collections
  import opened Resolution

  /**
   * ethers' `hexlify` refuses a JavaScript number that is negative or not
   * below 0x1fffffffffffff (its safe-integer check) and throws.
   */
  const SafeIntegerLimit: nat := 0x1f_ffff_ffff_ffff

  /** The `:nums` path segment after `JSON.parse`. */
  datatype IdsParam =
    | IdArray(ids: seq<int>)   // a JSON array of token numbers
    | NotAnArray               // valid JSON that is not an array
    | Unparsable               // `JSON.parse` throws

  /** `hexlify(id)` for a requested token number. */
  function IdWord(id: int): (r: Option<Word>)
    ensures r.Some? <==> 0 <= id < SafeIntegerLimit
    ensures r.Some? ==> r.value == id
  {
    if 0 <= id < SafeIntegerLimit then Some(id) else None
  }

  /**
   * A stored trait as a packed word: `parseUnits(trait, 18)`, which fails
   * beyond 18 decimals, and which `solidityPack` refuses from 2^256 upwards.
   */
  function ScaledValue(d: Decimal): (r: Option<Word>)
    ensures r.Some? <==> ParseUnits(d).Some? && ParseUnits(d).value < WordLimit
    ensures r.Some? ==> r.value * Pow10(d.places) == d.digits * Pow10(Decimals)
  {
    match ParseUnits(d)
    case None => None
    case Some(v) => if v < WordLimit then Some(v) else None
  }

  /** The value pushed for one token: its first inventory record scaled, or the raw default rate. */
  function DepositValue(inventory: Store, id: int, defaultRate: Word): Option<Word> {
    match FindByNo(inventory, id)
    case Some(d) => ScaledValue(d.value)
    case None => Some(defaultRate)
  }

  /** What a token's value must be, stated on the collection's trait view. */
  function ExpectedValue(s: Store, id: int, defaultRate: Word): Option<Word> {
    if id in Traits(s) then ScaledValue(Traits(s)[id]) else Some(defaultRate)
  }

  /**
   * The deposit loop: push `hexlify(id)` and the token's value for every
   * requested id, in order. Any throw aborts the whole request.
   */
  function BuildArrays(inventory: Store, ids: seq<int>, defaultRate: Word): (r: Option<(seq<Word>, seq<Word>)>)
    ensures r.Some? <==>
      forall i | 0 <= i < |ids| :: 0 <= ids[i] < SafeIntegerLimit && DepositValue(inventory, ids[i], defaultRate).Some?
    ensures r.Some? ==> |r.value.0| == |ids| && |r.value.1| == |ids|
    ensures r.Some? ==> forall i | 0 <= i < |ids| :: r.value.0[i] == ids[i]
    ensures r.Some? ==> forall i | 0 <= i < |ids| :: Some(r.value.1[i]) == DepositValue(inventory, ids[i], defaultRate)
  {
    if |ids| == 0 then Some(([], []))
    else
      match (IdWord(ids[0]), DepositValue(inventory, ids[0], defaultRate), BuildArrays(inventory, ids[1..], defaultRate))
      case (Some(h), Some(v), Some(rest)) => Some(([h] + rest.0, [v] + rest.1))
      case _ => None
  }

  /** `solidityKeccak256(["bytes"], [solidityPack(...)])`, which is keccak256 of the packed bytes. */
  function AttestationDigest(crypto: Crypto, subject: Address, ids: seq<Word>, values: seq<Word>): Digest {
    crypto.keccak(Pack(subject, ids, values))
  }

  /** `signMessage(arrayify(digest))` with the configured wallet. */
  function Attest(crypto: Crypto, signer: Signer, subject: Address, ids: seq<Word>, values: seq<Word>): Signature {
    SignMessage(crypto, signer, AttestationDigest(crypto, subject, ids, values))
  }

  /** The JSON body `{hexNums, traits, signature}`; an absent signature is left out of the body. */
  datatype DepositReply = DepositReply(hexNums: seq<Word>, traits: seq<Word>, signature: Option<Signature>)

  datatype DepositOutcome = Json(reply: DepositReply) | ServerError

  /** The deposit route for one collection. */
  function DepositRoute(stores: Stores, chain: Chain, cfg: Config, c: Collection, param: IdsParam,
                        crypto: Crypto, signer: Signer): (r: DepositOutcome)
    ensures param.Unparsable? ==> r.ServerError?
    ensures param.NotAnArray? ==> r == Json(DepositReply([], [], None))
    ensures r.Json? ==> (r.reply.signature.Some? <==> param.IdArray?)
    ensures param.IdArray? ==>
      (r.Json? <==> forall i | 0 <= i < |param.ids| ::
         0 <= param.ids[i] < SafeIntegerLimit && ExpectedValue(stores.Get(c), param.ids[i], DefaultRate(chain, cfg, c)).Some?)
    ensures param.IdArray? && r.Json? ==>
      && |r.reply.hexNums| == |param.ids| && |r.reply.traits| == |param.ids|
      && (forall i | 0 <= i < |param.ids| :: r.reply.hexNums[i] == param.ids[i])
      && (forall i | 0 <= i < |param.ids| ::
            Some(r.reply.traits[i]) == ExpectedValue(stores.Get(c), param.ids[i], DefaultRate(chain, cfg, c)))
    ensures param.IdArray? && r.Json? ==>
      r.reply.signature == Some(Attest(crypto, signer, Subject(cfg, c), r.reply.hexNums, r.reply.traits))
  {
    match param
    case Unparsable => ServerError
    case NotAnArray => Json(DepositReply([], [], None))
    case IdArray(ids) =>
      var subject := Subject(cfg, c);
      var defaultRate := DefaultRate(chain, cfg, c);
      var inventory := Inventory(stores.Get(c), ids);
      InventoryValues(stores.Get(c), ids, defaultRate);
      match BuildArrays(inventory, ids, defaultRate)
      case None => ServerError
      case Some(arrays) =>
        Json(DepositReply(arrays.0, arrays.1, Some(Attest(crypto, signer, subject, arrays.0, arrays.1))))
  }

  /** For every requested token the inventory gives the value the trait view prescribes. */
  lemma InventoryValues(s: Store, ids: seq<int>, defaultRate: Word)
    ensures forall i | 0 <= i < |ids| :: DepositValue(Inventory(s, ids), ids[i], defaultRate) == ExpectedValue(s, ids[i], defaultRate)
  {
    forall i | 0 <= i < |ids|
      ensures DepositValue(Inventory(s, ids), ids[i], defaultRate) == ExpectedValue(s, ids[i], defaultRate)
    {
      InventoryFind(s, ids, ids[i]);
      FindAgreesWithTraits(s, ids[i]);
    }
  }

  /**
   * The values a deposit signs are the values the resolution route reports,
   * scaled: `parseUnits` of the displayed trait, and for a default the
   * displayed `formatUnits(rate, 18)` scales back to the raw rate.
   */
  lemma DepositAgreesWithResolution(s: Store, id: int, defaultRate: Word)
    ensures ExpectedValue(s, id, defaultRate) == ScaledValue(ResolvedValue(s, id, defaultRate))
  {
    if id !in Traits(s) {
      ParseFormatRoundTrip(defaultRate);
    }
  }

  /**
   * The signature is the configured wallet's signature over the EIP-191
   * wrapping of keccak256 of the packed (subject, ids, values), and nothing
   * else goes into it.
   */
  lemma AttestationPipeline(crypto: Crypto, signer: Signer, subject: Address, ids: seq<Word>, values: seq<Word>)
    requires |ids| == |values|
    ensures Attest(crypto, signer, subject, ids, values)
         == signer(crypto.keccak(MessageHeader + [0x33, 0x32] + crypto.keccak(Pack(subject, ids, values))))
    ensures |Pack(subject, ids, values)| == 20 + 64 * |ids|
  {
    DigestPersonalMessage(AttestationDigest(crypto, subject, ids, values));
    UnpackPack(subject, ids, values);
  }
}
