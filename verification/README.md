# Trait records and deposit attestations

A model of the trait routes of a staking dApp back end (`routes/api/nfts.js`).
The service keeps two collections of per-token *trait* records: a primary one
(`Trait`) and a utility one (`TraitUtility`). Each record holds a token number
`no` and a decimal trait value. The routes do four things:

- **Resolve** requested token numbers to their trait values. A token without a
  record falls back to the bank contract's base rate for the collection's
  configured address.
- **Attest** a deposit. They build two index-aligned arrays: the token ids, and
  the values in 18-decimal fixed point. They pack these behind the configured
  address in Solidity's packed ABI encoding, hash the result with keccak256 and
  sign it as an EIP-191 personal message.
- **Upsert** a record. The request must carry a text whose signature recovers
  to the bank contract's `owner()`.
- **Delete** one record by its `_id`, or every record of a collection.

The model is functional. The store is an immutable sequence of records in the
document store's natural order. Every route is a pure function from
(stores, chain state, configuration, request) to (reply, stores). keccak256,
signing with the configured key, and secp256k1 signer recovery are
function-typed parameters. Nothing is known of them except that they are
functions, so every result built from them is deterministic.

Each primary route and its utility twin differ only in the collection and the
configured address. Each route is modelled once, with a `Collection`
parameter, and the `Stores.Put` contract shows that the other collection never
changes. The utility copies are at these lines: `routes/api/nfts.js` 76-106
(upsert), 198-212 (resolution), 239-248 (delete all), 276-292 (delete one) and
362-378 (deposit).

Modules, one per concern:

| file | module | concern |
|---|---|---|
| `wrappers.dfy` | `Wrappers` | `Option` |
| `fixed_point.dfy` | `FixedPoint` | decimals, `parseUnits` / `formatUnits` with 18 decimals |
| `abi_packed.dfy` | `AbiPacked` | bytes, `uint256` words, big-endian encoding, packed `(address, uint256[], uint256[])` and its decoder |
| `personal_sign.dfy` | `PersonalSign` | UTF-8, the EIP-191 header, `hashMessage` / `signMessage` / `verifyMessage` |
| `trait_store.dfy` | `TraitStore` | records, first-match lookup, upsert, delete by id, the token-to-trait view |
| `collections.dfy` | `Collections` | the two collections, configuration, chain state |
| `resolution.dfy` | `Resolution` | the resolution loop of `GET /:nums` |
| `deposit.dfy` | `Deposit` | the deposit loop, packing and signing of `GET /deposit/:nums` |
| `admin_routes.dfy` | `AdminRoutes` | the owner-gated upsert and the deletions |

The model follows the code where it departs from the intended design:

- **`JSON.parse` runs before the owner comparison.** The code parses the signed
  text (line 41) before it compares the signer with the owner (line 42). A
  malformed text therefore fails even when the signer is not the owner.
- **Some throws leave the request unanswered.** `verifyMessage` (line 28) and
  `JSON.parse` (line 41) run outside the handler's `try`. When either throws,
  the route sends no reply at all, neither a 500 nor `{success: false}`. The
  model calls this `Unanswered`.
- **The owner comparison is plain `==` on two strings.** Both strings come out
  of ethers in checksummed form, so this is equality of the 20 address bytes.
  The model compares `Address` values.
- **Deletion is by the record's `_id`, not by token number.** `DELETE /:id`
  looks the record up with `findById`.

## Model

| member | source | states |
|---|---|---|
| FixedPoint.ParseUnits | routes/api/nfts.js:323 | `parseUnits(trait, 18)` yields an integer exactly when the decimal has at most 18 significant fractional digits, and that integer times 10^places equals the digits times 10^18, so the value is scaled by 10^18 without rounding |
| FixedPoint.FormatUnits | routes/api/nfts.js:167 | `formatUnits(rate, 18)` denotes rate / 10^18 in ethers' shortest form: no trailing fractional zero, at least one fractional digit |
| FixedPoint.ParseUnitsRespectsValue | routes/api/nfts.js:323 | two decimal renderings of the same number ("2.5", "2.50") scale to the same integer or both fail |
| FixedPoint.ParseFormatRoundTrip | routes/api/nfts.js:167 | `parseUnits(formatUnits(v, 18), 18) == v` for every non-negative integer v, so the default shown by resolution scales back to the raw rate |
| AbiPacked.WordBytes | routes/api/nfts.js:328 | a `uint256` element is exactly 32 bytes, which read as a big-endian number give back the element |
| AbiPacked.Pack | routes/api/nfts.js:328 | the packed message is 20 + 32·(ids + values) bytes long and starts with the 20 address bytes |
| AbiPacked.UnpackPack | routes/api/nfts.js:328 | for index-aligned arrays of length n the packed message has length 20 + 64·n and decodes back to the address, the ids and the values in order |
| AbiPacked.PackInjective | routes/api/nfts.js:328 | two aligned (address, ids, values) triples that pack to the same bytes are equal, so the signed bytes pin down the subject and both arrays |
| PersonalSign.Utf8Ascii | routes/api/nfts.js:28 | `toUtf8Bytes` of ASCII text is one byte per character, equal to its character code |
| PersonalSign.DecimalRoundTrip | routes/api/nfts.js:330 | the decimal length field of the EIP-191 prefix reads back as the message length |
| PersonalSign.PersonalMessageInjective | routes/api/nfts.js:330 | the EIP-191 wrapping of a message determines the message, because the length field is canonical |
| PersonalSign.DigestPersonalMessage | routes/api/nfts.js:330 | a 32-byte digest is signed as the 26-byte header "\x19Ethereum Signed Message:\n", then "32", then the digest: 60 bytes in all |
| TraitStore.FirstIndex | routes/api/nfts.js:163 | `Array.prototype.find` returns the earliest record satisfying the test, and none exists when it returns nothing |
| TraitStore.FindByNo | routes/api/nfts.js:163 | the record found for a token is a stored record with `no` strictly equal to the token, and no earlier record carries that token, as `Array.prototype.find` returns the first match. Nothing is found exactly when no record carries it |
| TraitStore.FindById | routes/api/nfts.js:256 | `findById` finds a stored record with that `_id`, the first in natural order, and nothing exactly when no record has it |
| TraitStore.FindUnique | routes/api/nfts.js:163 | in a well-formed store, searching for a stored record's token finds that very record, so the first-match rule never hides a second record |
| TraitStore.FindAgreesWithTraits | routes/api/nfts.js:163-167 | the first-match lookup and the token-to-trait view agree: a token has a value in the view exactly when a record is found, and it is that record's trait |
| TraitStore.Upsert | routes/api/nfts.js:44-48 | the returned record has the requested `no` and trait and is in the new store. An existing record keeps its `_id` and the store keeps its length. Otherwise a record with the fresh id is appended. Records of other tokens are neither lost nor invented |
| TraitStore.UpsertView | routes/api/nfts.js:44-48 | after an upsert the view maps `no` to the new trait and every other token exactly as before |
| TraitStore.UpsertWellFormed | routes/api/nfts.js:44-48 | with an unused fresh id, an upsert keeps ids and token numbers unique, and the saved record is the only one left for its token |
| TraitStore.DeleteById | routes/api/nfts.js:256-264 | the result is 404 exactly when no record has the id. Otherwise the record `findById` returns is removed: the new store is the old one as a multiset minus exactly that record, it is one shorter, and every record with another id stays |
| TraitStore.DeleteView | routes/api/nfts.js:256-264 | deleting from a well-formed store keeps it well formed, drops the deleted record's token from the view and leaves every other token unchanged |
| Resolution.Inventory | routes/api/nfts.js:159 | `find({no: {$in: nums}})` returns exactly the stored records whose token was requested |
| Resolution.InventoryFind | routes/api/nfts.js:159-163 | for every requested token, searching the inventory finds the same record as searching the whole collection |
| Resolution.ResolveTraits | routes/api/nfts.js:153-169 | one entry per requested token, in request order, duplicates kept. Entry i has `no` equal to the i-th request and holds that token's stored trait, or `formatUnits` of the configured address's base rate when there is none |
| Resolution.UpsertThenResolve | routes/api/nfts.js:44-48 | after an upsert the token resolves to the new value and every other token as before |
| Resolution.DeleteThenResolve | routes/api/nfts.js:256-264 | after a deletion the deleted record's token falls back to the default and every other token resolves as before |
| Resolution.EmptyResolvesToDefault | routes/api/nfts.js:225-234 | after `deleteMany({})` on a collection, every token of that collection resolves to the default |
| Deposit.ScaledValue | routes/api/nfts.js:323 | a stored trait becomes a packed word exactly when `parseUnits` succeeds and the result is below 2^256, and the word is the trait times 10^18 |
| Deposit.BuildArrays | routes/api/nfts.js:317-327 | the loop succeeds exactly when every id is an integer with 0 <= id < 0x1fffffffffffff (the bound `hexlify` enforces) and every value is available. Then both arrays have the request's length, id i is the i-th request, and value i is that token's value |
| Deposit.DepositRoute | routes/api/nfts.js:301-332 | input that does not parse gives a 500. Valid JSON that is not an array gives empty arrays and no signature, and nothing is signed. For an array, the reply succeeds exactly when every id satisfies 0 <= id < 0x1fffffffffffff and every value encodes. The arrays are index-aligned with the request, each value comes from the stored trait or the raw default rate, and the signature is over the configured address with exactly these arrays |
| Deposit.InventoryValues | routes/api/nfts.js:318-321 | for each requested token the inventory yields the value the collection's trait view prescribes |
| Deposit.DepositAgreesWithResolution | routes/api/nfts.js:321-325 | the value a deposit signs for a token is `parseUnits` of the value the resolution route reports for it, defaults included |
| Deposit.AttestationPipeline | routes/api/nfts.js:328-330 | the signature is the wallet's signature over keccak256 of the EIP-191 wrapping of keccak256 of the packed message, which is 20 + 64·n bytes long |
| AdminRoutes.MissingFields | routes/api/nfts.js:19-27 | the validation errors name exactly the empty fields among `unsignedMsg`, `signedMessage` and `fullyExpandedSig` |
| AdminRoutes.PostTrait | routes/api/nfts.js:28-57 | a 400 exactly when a field is empty. For a complete request: no reply when the signature does not recover or the text does not parse; otherwise a save exactly when the recovered signer equals `owner()`, and `{success: false}` when it does not. A write sets the parsed token to the parsed trait and leaves other tokens and the other collection unchanged. Every other outcome leaves both collections unchanged |
| AdminRoutes.NonOwnerRejected | routes/api/nfts.js:40-57 | a complete, parsable request signed by anyone but the owner gets `{success: false}` and both collections stay unchanged |
| AdminRoutes.OwnerSignedUpdateSaved | routes/api/nfts.js:28-50 | if the owner's key signed the text, and its signatures recover to the owner's address, a complete request with a parsable text is saved |
| AdminRoutes.PostTraitWellFormed | routes/api/nfts.js:44-50 | an upsert through the route keeps the collection well formed, and the saved record is the only record of its token |
| AdminRoutes.DeleteTrait | routes/api/nfts.js:254-270 | 404 exactly when no record of the collection has the id, and then nothing changes. Otherwise the record `findById` returns is removed (the collection loses exactly that record as a multiset), every record with another id stays, and the other collection is untouched |
| AdminRoutes.DeleteAllTraits | routes/api/nfts.js:225-234 | after delete-all no token of the collection is found, and the other collection is untouched |

## Left out

- **The obfuscated block after `module.exports` on line 386 is not modelled.** It decodes strings, reaches a remote host, writes files to the home directory and runs them through `child_process`. It is a supply-chain compromise, not behaviour of this service, and it should be removed from the file.
- **The cryptography.** keccak256, secp256k1 signing (RFC 6979) and signer recovery are function parameters (`Crypto`, `Signer`). No cryptographic property is proved. `OwnerSignedUpdateSaved` takes "the owner key's signatures recover to the owner" as a hypothesis.
- **Chain reads.** `owner()` and `_baseRates(address)` are a `Chain` snapshot parameter. The model does not cover RPC failures or the per-request construction of the provider, the wallet and the contract. The ABI literal is not modelled either.
- **The list routes `GET /` and `GET /utility/`.** They are a plain query sorted by `date`, and records carry no `date` in the model.
- **Middleware.** The `admin` middleware and `checkObjectId` are not part of this model, and neither are the texts of express-validator's messages. Record ids are `ObjectId` values, so a syntactically invalid id never reaches the route.
- **Document-store failures.** Store errors and the generic 500 replies are not modelled. `_id` generation is a `freshId` parameter, and `setDefaultsOnInsert` (the `date` field) is left out.
- **`JSON.parse` of the signed text.** It is an `UpdateParser` parameter. A parsed object that lacks `no` or `trait` is not modelled.
- **Request elements.** They are integers. String, fractional or otherwise non-numeric elements of the `:nums` array are not modelled, and neither is how the document store casts them in `$in`.
- **Resolution input.** `ResolveTraits` takes a token array. The resolution routes' behaviour on JSON that is not an array is not modelled (their loop then runs over the `length` of whatever was parsed), and neither is their 500 on text that does not parse.
- **Trait values as JavaScript numbers.** A stored trait is a `Decimal` (digits and a count of fractional places). Numbers whose `toString()` uses exponent notation, such as `1e-7` or `1e21`, make `parseUnits` throw. That path is not modelled.
- **Negative trait values.** `Decimal` is non-negative, so `parseUnits` of a negative trait is not modelled.
- **Hex rendering.** `hexlify` output is not modelled. `hexNums` and `traits` hold the numbers the hex strings denote.
- **Lone UTF-16 surrogates.** JavaScript strings can contain them, but `Utf8` encodes Dafny strings, which are Unicode scalar values.
- **Concurrency.** Requests are applied one at a time. The race between two concurrent upserts of one token is not modelled.
- ResolveTraits: an entry holds only `no` and the trait. The other fields of a stored record that the route returns with it are not modelled.
