/**
 * The administrative routes: the owner-gated upsert (`POST /`,
 * `POST /utility/`) and the deletions (`DELETE /:id`, `DELETE /utility/:id`,
 * `DELETE /all`, `DELETE /allutility`).
 */
module AdminRoutes {
  import opened Wrappers
  import opened FixedPoint
  import opened PersonalSign
  import opened TraitStore
  import opened Collections

  /** The three body fields the upsert validates, in the order it checks them. */
  datatype Field = UnsignedMsg | SignedMessage | FullyExpandedSig

  /** The upsert request body. */
  datatype AdminRequest = AdminRequest(unsignedMsg: string, signedMessage: string, fullyExpandedSig: Signature)

  /** The signed text's content `{no, trait}`. */
  datatype UpdateMsg = UpdateMsg(no: int, value: Decimal)

  /** `JSON.parse` of the signed text; None where it throws. */
  type UpdateParser = string -> Option<UpdateMsg>

  function FieldText(req: AdminRequest, f: Field): string {
    match f
    case UnsignedMsg => req.unsignedMsg
    case SignedMessage => req.signedMessage
    case FullyExpandedSig => req.fullyExpandedSig
  }

  /** The fields that fail `notEmpty()`, in check order. */
  function MissingFields(req: AdminRequest): (r: seq<Field>)
    ensures forall f :: f in r <==> FieldText(req, f) == ""
    ensures |r| <= 3
  {
    (if req.unsignedMsg == "" then [UnsignedMsg] else [])
    + (if req.signedMessage == "" then [SignedMessage] else [])
    + (if req.fullyExpandedSig == "" then [FullyExpandedSig] else [])
  }

  datatype UpsertReply =
    | Invalid(missing: seq<Field>)   // 400 with the validation errors
    | Unanswered                     // a throw outside the handler's try: no response is sent
    | NotAuthorized                  // `{success: false}`
    | Saved(record: Document)        // `{trait, success: true}`

  /**
   * The upsert route for one collection. Validation comes first; then the
   * signer is recovered from the text and signature (a malformed signature
   * throws), the text is parsed (malformed JSON throws, whoever signed it),
   * and only a signer equal to the bank's `owner()` gets the record written.
   * Both throws happen outside the handler's `try`, so no reply is sent.
   */
  function PostTrait(stores: Stores, c: Collection, chain: Chain, crypto: Crypto, parse: UpdateParser,
                     req: AdminRequest, freshId: ObjectId): (r: (UpsertReply, Stores))
    ensures r.0.Invalid? <==> MissingFields(req) != []
    ensures r.0.Invalid? ==> r.0.missing == MissingFields(req)
    ensures !r.0.Saved? ==> r.1 == stores
    ensures r.0.Saved? ==>
      && MissingFields(req) == []
      && VerifyMessage(crypto, req.unsignedMsg, req.fullyExpandedSig) == Some(chain.owner)
      && parse(req.unsignedMsg).Some?
    ensures r.0.Saved? ==>
      && r.0.record.no == parse(req.unsignedMsg).value.no
      && r.0.record.value == parse(req.unsignedMsg).value.value
      && FindByNo(r.1.Get(c), r.0.record.no).Some?
      && Traits(r.1.Get(c)) == Traits(stores.Get(c))[r.0.record.no := r.0.record.value]
    ensures MissingFields(req) == [] && parse(req.unsignedMsg).Some?
         && VerifyMessage(crypto, req.unsignedMsg, req.fullyExpandedSig) == Some(chain.owner)
         ==> r.0.Saved?
    ensures MissingFields(req) == [] && parse(req.unsignedMsg).Some?
         && VerifyMessage(crypto, req.unsignedMsg, req.fullyExpandedSig).Some?
         && VerifyMessage(crypto, req.unsignedMsg, req.fullyExpandedSig) != Some(chain.owner)
         ==> r.0 == NotAuthorized
    ensures MissingFields(req) == []
         && (VerifyMessage(crypto, req.unsignedMsg, req.fullyExpandedSig).None? || parse(req.unsignedMsg).None?)
         ==> r.0 == Unanswered
    ensures r.1.Get(Other(c)) == stores.Get(Other(c))
  {
    var missing := MissingFields(req);
    if missing != [] then (Invalid(missing), stores)
    else
      match VerifyMessage(crypto, req.unsignedMsg, req.fullyExpandedSig)
      case None => (Unanswered, stores)
      case Some(signingAddress) =>
        match parse(req.unsignedMsg)
        case None => (Unanswered, stores)
        case Some(msg) =>
          if signingAddress == chain.owner then
            var saved := Upsert(stores.Get(c), msg.no, msg.value, freshId);
            UpsertView(stores.Get(c), msg.no, msg.value, freshId);
            FindAgreesWithTraits(saved.0, msg.no);
            (Saved(saved.1), stores.Put(c, saved.0))
          else
            (NotAuthorized, stores)
  }

  /**
   * A complete, well-formed request whose signature recovers to anyone but
   * the owner gets `{success: false}` and changes nothing.
   */
  lemma NonOwnerRejected(stores: Stores, c: Collection, chain: Chain, crypto: Crypto, parse: UpdateParser,
                         req: AdminRequest, freshId: ObjectId)
    requires MissingFields(req) == []
    requires parse(req.unsignedMsg).Some?
    requires VerifyMessage(crypto, req.unsignedMsg, req.fullyExpandedSig).Some?
    requires VerifyMessage(crypto, req.unsignedMsg, req.fullyExpandedSig) != Some(chain.owner)
    ensures PostTrait(stores, c, chain, crypto, parse, req, freshId) == (NotAuthorized, stores)
  {
  }

  /**
   * If the owner's key signs the text (and its signatures recover to the
   * owner's address), a complete request with a parsable text is saved.
   */
  lemma OwnerSignedUpdateSaved(stores: Stores, c: Collection, chain: Chain, crypto: Crypto, parse: UpdateParser,
                               req: AdminRequest, freshId: ObjectId, ownerKey: Signer)
    requires forall d: Digest :: crypto.recover(d, ownerKey(d)) == Some(chain.owner)
    requires req.fullyExpandedSig == SignMessage(crypto, ownerKey, Utf8(req.unsignedMsg))
    requires MissingFields(req) == []
    requires parse(req.unsignedMsg).Some?
    ensures PostTrait(stores, c, chain, crypto, parse, req, freshId).0.Saved?
  {
    assert VerifyMessage(crypto, req.unsignedMsg, req.fullyExpandedSig) == Some(chain.owner);
  }

  /**
   * An authorized upsert with a fresh id keeps the collection well formed:
   * exactly one record carries the token, the saved one.
   */
  lemma PostTraitWellFormed(stores: Stores, c: Collection, chain: Chain, crypto: Crypto, parse: UpdateParser,
                            req: AdminRequest, freshId: ObjectId)
    requires WellFormed(stores.Get(c))
    requires forall d | d in stores.Get(c) :: d.id != freshId
    ensures WellFormed(PostTrait(stores, c, chain, crypto, parse, req, freshId).1.Get(c))
    ensures PostTrait(stores, c, chain, crypto, parse, req, freshId).0.Saved? ==>
      forall d | d in PostTrait(stores, c, chain, crypto, parse, req, freshId).1.Get(c)
             && d.no == PostTrait(stores, c, chain, crypto, parse, req, freshId).0.record.no
        :: d == PostTrait(stores, c, chain, crypto, parse, req, freshId).0.record
  {
    var r := PostTrait(stores, c, chain, crypto, parse, req, freshId);
    if r.0.Saved? {
      var msg := parse(req.unsignedMsg).value;
      UpsertWellFormed(stores.Get(c), msg.no, msg.value, freshId);
    }
  }

  datatype DeleteReply =
    | NotFound   // 404 `{msg: 'Trait not found'}`
    | Removed    // `{msg: 'Post removed'}`
    | Reset      // `{msg: 'Trait Reset'}` / `{msg: 'TraitUtility Reset'}`

  /** Deleting one record of a collection by its `_id`. */
  function DeleteTrait(stores: Stores, c: Collection, id: ObjectId): (r: (DeleteReply, Stores))
    ensures r.0 == NotFound <==> forall d | d in stores.Get(c) :: d.id != id
    ensures r.0 == NotFound || r.0 == Removed
    ensures r.0 == NotFound ==> r.1 == stores
    ensures r.0 == Removed ==>
      && |r.1.Get(c)| == |stores.Get(c)| - 1
      && (forall d | d in r.1.Get(c) :: d in stores.Get(c))
      && (forall d | d in stores.Get(c) && d.id != id :: d in r.1.Get(c))
    ensures r.0 == Removed ==>
      && FindById(stores.Get(c), id).Some?
      && multiset(r.1.Get(c)) == multiset(stores.Get(c)) - multiset{FindById(stores.Get(c), id).value}
    ensures r.1.Get(Other(c)) == stores.Get(Other(c))
  {
    match DeleteById(stores.Get(c), id)
    case None => (NotFound, stores)
    case Some(removed) => (Removed, stores.Put(c, removed.1))
  }

  /** Deleting every record of one collection. */
  function DeleteAllTraits(stores: Stores, c: Collection): (r: (DeleteReply, Stores))
    ensures r.0 == Reset
    ensures forall no :: FindByNo(r.1.Get(c), no).None?
    ensures r.1.Get(Other(c)) == stores.Get(Other(c))
  {
    (Reset, stores.Put(c, []))
  }
}
