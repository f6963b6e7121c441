/**
 * Trait resolution (`GET /:nums`, `GET /utility/:nums`): one entry per
 * requested token number, in request order, holding the stored trait or,
 * when the token has no record, the collection's default rate rendered with
 * 18 decimals.
 */
module Resolution {
  import opened Wrappers
  import opened FixedPoint
  import opened AbiPacked
  import opened TraitStore
  import opened Collections
  import opened AdminRoutes

  /** One reply element: `{no, trait}`. */
  datatype Entry = Entry(no: int, value: Decimal)

  /**
   * `find({no: {$in: nums}})`: the records whose token number was requested,
   * in natural order.
   */
  function Inventory(s: Store, nums: seq<int>): (r: Store)
    ensures forall d | d in r :: d in s && d.no in nums
    ensures forall d | d in s && d.no in nums :: d in r
  {
    if |s| == 0 then []
    else if s[0].no in nums then [s[0]] + Inventory(s[1..], nums)
    else Inventory(s[1..], nums)
  }

  /** Searching the inventory finds what searching the whole store finds, for every requested token. */
  lemma {:induction false} InventoryFind(s: Store, nums: seq<int>, no: int)
    requires no in nums
    ensures FindByNo(Inventory(s, nums), no) == FindByNo(s, no)
  {
    if |s| > 0 {
      InventoryFind(s[1..], nums, no);
      var p := (d: Document) => d.no == no;
      assert FirstIndex(s, p) == (if p(s[0]) then Some(0) else match FirstIndex(s[1..], p) case None => None case Some(k) => Some(k + 1));
      var inv := Inventory(s, nums);
      if s[0].no in nums {
        assert inv[1..] == Inventory(s[1..], nums);
        assert FirstIndex(inv, p) == (if p(inv[0]) then Some(0) else match FirstIndex(inv[1..], p) case None => None case Some(k) => Some(k + 1));
      }
    }
  }

  /** The value the service reports for a token: its stored trait, else `formatUnits(defaultRate, 18)`. */
  function ResolvedValue(s: Store, no: int, defaultRate: Word): Decimal {
    if no in Traits(s) then Traits(s)[no] else FormatUnits(defaultRate)
  }

  /**
   * The resolution loop: for each requested token, in order, the first
   * inventory record with that token number, or a default entry.
   */
  method ResolveTraits(stores: Stores, chain: Chain, cfg: Config, c: Collection, nums: seq<int>)
    returns (reply: seq<Entry>)
    ensures |reply| == |nums|
    ensures forall i | 0 <= i < |nums| :: reply[i].no == nums[i]
    ensures forall i | 0 <= i < |nums| ::
      reply[i].value == ResolvedValue(stores.Get(c), nums[i], DefaultRate(chain, cfg, c))
  {
    var store := stores.Get(c);
    var defaultRate := DefaultRate(chain, cfg, c);
    var inventory := Inventory(store, nums);
    reply := [];
    var i := 0;
    while i < |nums|
      invariant 0 <= i <= |nums|
      invariant |reply| == i
      invariant forall k | 0 <= k < i :: reply[k].no == nums[k]
      invariant forall k | 0 <= k < i :: reply[k].value == ResolvedValue(store, nums[k], defaultRate)
    {
      var found := FindByNo(inventory, nums[i]);
      var entry := if found.Some? then Entry(found.value.no, found.value.value)
                   else Entry(nums[i], FormatUnits(defaultRate));
      assert entry.no == nums[i] && entry.value == ResolvedValue(store, nums[i], defaultRate) by {
        InventoryFind(store, nums, nums[i]);
        FindAgreesWithTraits(store, nums[i]);
      }
      reply := reply + [entry];
      i := i + 1;
    }
  }

  /** After an upsert, the token resolves to the new value and every other token as before. */
  lemma UpsertThenResolve(s: Store, no: int, value: Decimal, freshId: ObjectId, other: int, defaultRate: Word)
    ensures ResolvedValue(Upsert(s, no, value, freshId).0, no, defaultRate) == value
    ensures other != no ==>
      ResolvedValue(Upsert(s, no, value, freshId).0, other, defaultRate) == ResolvedValue(s, other, defaultRate)
  {
    UpsertView(s, no, value, freshId);
  }

  /**
   * After a record is deleted from a well-formed store, its token falls back
   * to the default and every other token resolves as before.
   */
  lemma DeleteThenResolve(s: Store, id: ObjectId, other: int, defaultRate: Word)
    requires WellFormed(s)
    requires DeleteById(s, id).Some?
    ensures ResolvedValue(DeleteById(s, id).value.1, DeleteById(s, id).value.0.no, defaultRate)
         == FormatUnits(defaultRate)
    ensures other != DeleteById(s, id).value.0.no ==>
      ResolvedValue(DeleteById(s, id).value.1, other, defaultRate) == ResolvedValue(s, other, defaultRate)
  {
    DeleteView(s, id);
  }

  /** After delete-all, every token of that collection resolves to the default. */
  lemma EmptyResolvesToDefault(stores: Stores, c: Collection, no: int, defaultRate: Word)
    ensures ResolvedValue(DeleteAllTraits(stores, c).1.Get(c), no, defaultRate) == FormatUnits(defaultRate)
  {
    FindAgreesWithTraits(DeleteAllTraits(stores, c).1.Get(c), no);
  }
}
