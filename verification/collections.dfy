/**
 * The service's configuration and the state it reads per request: the two
 * trait collections, the two configured subject addresses, and what the
 * bank contract reports (its owner and its per-collection base rates).
 */
module Collections {
  import opened AbiPacked
  import opened TraitStore

  /**
   * The primary collection (`Trait`, attested for `twmAddress`) and the
   * utility collection (`TraitUtility`, attested for `utilityAddress`).
   */
  datatype Collection = Primary | Utility

  function Other(c: Collection): (r: Collection)
    ensures r != c
  {
    if c == Primary then Utility else Primary
  }

  /** The two configured collection addresses. */
  datatype Config = Config(twmAddress: Address, utilityAddress: Address)

  /** The address an attestation for this collection is bound to; it comes from configuration only. */
  function Subject(cfg: Config, c: Collection): Address {
    match c
    case Primary => cfg.twmAddress
    case Utility => cfg.utilityAddress
  }

  /** Both record collections. */
  datatype Stores = Stores(primary: Store, utility: Store) {

    function Get(c: Collection): Store {
      match c
      case Primary => primary
      case Utility => utility
    }

    /** Replaces one collection and keeps the other. */
    function Put(c: Collection, s: Store): (r: Stores)
      ensures r.Get(c) == s
      ensures r.Get(Other(c)) == Get(Other(c))
    {
      match c
      case Primary => this.(primary := s)
      case Utility => this.(utility := s)
    }
  }

  /** The bank contract as read at request time: `owner()` and `_baseRates(address)`. */
  datatype Chain = Chain(owner: Address, baseRates: Address -> Word)

  /** The default rate of a collection: the base rate of its configured address. */
  function DefaultRate(chain: Chain, cfg: Config, c: Collection): Word {
    chain.baseRates(Subject(cfg, c))
  }
}
