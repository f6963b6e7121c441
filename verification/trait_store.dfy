/**
 * One collection of trait records (`Trait` or `TraitUtility`) as the routes
 * use it: find by token number, find by record id, upsert by token number,
 * delete one, delete all. The collection is a sequence in natural order,
 * which is the order an unsorted query returns and the order
 * `Array.prototype.find` scans.
 */
module TraitStore {
  import opened Wrappers
  import opened FixedPoint

  /** The `_id` the document store gives a record. */
  type ObjectId = nat

  /** A stored record: `{_id, no, trait}`; `value` is the record's `trait` field. */
  datatype Document = Document(id: ObjectId, no: int, value: Decimal)

  type Store = seq<Document>

  /** The position of the first record satisfying `p`, as `Array.prototype.find` scans. */
  function FirstIndex(s: Store, p: Document -> bool): (r: Option<nat>)
    ensures r.Some? ==> r.value < |s| && p(s[r.value])
    ensures r.Some? ==> forall j | 0 <= j < r.value :: !p(s[j])
    ensures r.None? ==> forall j | 0 <= j < |s| :: !p(s[j])
  {
    if |s| == 0 then None
    else if p(s[0]) then Some(0)
    else
      match FirstIndex(s[1..], p)
      case None => None
      case Some(k) => Some(k + 1)
  }

  /** The first record whose token number strictly equals `no`. */
  function FindByNo(s: Store, no: int): (r: Option<Document>)
    ensures r.Some? ==> r.value in s && r.value.no == no
    ensures r.Some? ==> exists k | 0 <= k < |s| :: s[k] == r.value && forall j | 0 <= j < k :: s[j].no != no
    ensures r.None? <==> forall d | d in s :: d.no != no
  {
    match FirstIndex(s, (d: Document) => d.no == no)
    case None => None
    case Some(k) => Some(s[k])
  }

  /** `findById`: the record with this `_id`. */
  function FindById(s: Store, id: ObjectId): (r: Option<Document>)
    ensures r.Some? ==> r.value in s && r.value.id == id
    ensures r.Some? ==> exists k | 0 <= k < |s| :: s[k] == r.value && forall j | 0 <= j < k :: s[j].id != id
    ensures r.None? <==> forall d | d in s :: d.id != id
  {
    match FirstIndex(s, (d: Document) => d.id == id)
    case None => None
    case Some(k) => Some(s[k])
  }

  /**
   * The store as the trait lookups see it: each token number with a record
   * maps to the trait of its first record.
   */
  function Traits(s: Store): map<int, Decimal> {
    if |s| == 0 then map[] else Traits(s[1..])[s[0].no := s[0].value]
  }

  /** The trait view and the first-match lookup agree. */
  lemma {:induction false} FindAgreesWithTraits(s: Store, no: int)
    ensures no in Traits(s) <==> FindByNo(s, no).Some?
    ensures no in Traits(s) ==> Traits(s)[no] == FindByNo(s, no).value.value
  {
    if |s| > 0 && s[0].no != no {
      FindAgreesWithTraits(s[1..], no);
      assert FindByNo(s, no) == FindByNo(s[1..], no) by {
        var p := (d: Document) => d.no == no;
        assert FirstIndex(s, p) == (match FirstIndex(s[1..], p) case None => None case Some(k) => Some(k + 1));
      }
    }
  }

  /** Two records share neither their id nor their token number. */
  predicate Apart(a: Document, b: Document) {
    a.id != b.id && a.no != b.no
  }

  /** Record ids are unique, and so are token numbers: one record per token. */
  ghost predicate WellFormed(s: Store) {
    forall i, j | 0 <= i < j < |s| :: Apart(s[i], s[j])
  }

  /** A store with a first record is well formed when its tail is and the first record stands apart from the rest. */
  lemma ConsWellFormed(x: Document, t: Store)
    ensures WellFormed([x] + t) <==> WellFormed(t) && forall e | e in t :: Apart(x, e)
  {
    var s := [x] + t;
    if WellFormed(t) && forall e | e in t :: Apart(x, e) {
      forall i, j | 0 <= i < j < |s|
        ensures Apart(s[i], s[j])
      {
        assert s[j] == t[j - 1];
        if i > 0 { assert s[i] == t[i - 1]; }
      }
    }
    if WellFormed(s) {
      forall i, j | 0 <= i < j < |t|
        ensures Apart(t[i], t[j])
      {
        assert t[i] == s[i + 1] && t[j] == s[j + 1];
      }
      forall e | e in t
        ensures Apart(x, e)
      {
        var j :| 0 <= j < |t| && t[j] == e;
        assert s[0] == x && s[j + 1] == e;
        assert Apart(s[0], s[j + 1]);
      }
    }
  }

  /** In a well-formed store the record found for a token is the only one it has. */
  lemma FindUnique(s: Store, d: Document)
    requires WellFormed(s) && d in s
    ensures FindByNo(s, d.no) == Some(d)
  {
    var r := FindByNo(s, d.no);
    var k :| 0 <= k < |s| && s[k] == r.value;
    var j :| 0 <= j < |s| && s[j] == d;
    assert !(j < k || k < j);
  }

  /**
   * `findOneAndUpdate({no}, {$set: {no, trait}}, {new: true, upsert: true})`:
   * the first record with this token number gets the new value; when there is
   * none, a record with the fresh id is appended. The record as saved is
   * returned alongside the new store.
   */
  function Upsert(s: Store, no: int, value: Decimal, freshId: ObjectId): (r: (Store, Document))
    ensures r.1.no == no && r.1.value == value && r.1 in r.0
    ensures FindByNo(s, no).Some? ==> r.1.id == FindByNo(s, no).value.id && |r.0| == |s|
    ensures FindByNo(s, no).None? ==> r.1.id == freshId && r.0 == s + [r.1]
    ensures forall d | d in s && d.no != no :: d in r.0
    ensures forall d | d in r.0 && d.no != no :: d in s
  {
    if |s| == 0 then
      var d := Document(freshId, no, value);
      ([d], d)
    else if s[0].no == no then
      var d := s[0].(value := value);
      ([d] + s[1..], d)
    else
      var rest := Upsert(s[1..], no, value, freshId);
      ([s[0]] + rest.0, rest.1)
  }

  /** A token number has a trait exactly when some record carries it. */
  lemma TraitsKeys(s: Store, no: int)
    ensures no in Traits(s) <==> exists d | d in s :: d.no == no
  {
    FindAgreesWithTraits(s, no);
  }

  /** After an upsert the lookups see the new value for `no` and nothing else changes. */
  lemma {:induction false} UpsertView(s: Store, no: int, value: Decimal, freshId: ObjectId)
    ensures Traits(Upsert(s, no, value, freshId).0) == Traits(s)[no := value]
  {
    if |s| > 0 {
      var r := Upsert(s, no, value, freshId);
      TraitsCons(s[0], s[1..]);
      assert s == [s[0]] + s[1..];
      if s[0].no == no {
        assert r.0 == [r.1] + s[1..];
        TraitsCons(r.1, s[1..]);
      } else {
        var rest := Upsert(s[1..], no, value, freshId);
        UpsertView(s[1..], no, value, freshId);
        assert r.0 == [s[0]] + rest.0;
        TraitsCons(s[0], rest.0);
        UpdatesCommute(Traits(s[1..]), no, value, s[0].no, s[0].value);
      }
    }
  }

  lemma TraitsCons(x: Document, t: Store)
    ensures Traits([x] + t) == Traits(t)[x.no := x.value]
  {
    assert ([x] + t)[1..] == t;
  }

  lemma UpdatesCommute(m: map<int, Decimal>, k1: int, v1: Decimal, k2: int, v2: Decimal)
    requires k1 != k2
    ensures m[k1 := v1][k2 := v2] == m[k2 := v2][k1 := v1]
  {
  }

  /**
   * An upsert with an unused id keeps the store well formed and leaves exactly
   * one record for the token: the one it returns.
   */
  lemma {:induction false} UpsertWellFormed(s: Store, no: int, value: Decimal, freshId: ObjectId)
    requires WellFormed(s)
    requires forall d | d in s :: d.id != freshId
    ensures WellFormed(Upsert(s, no, value, freshId).0)
    ensures forall d | d in Upsert(s, no, value, freshId).0 && d.no == no :: d == Upsert(s, no, value, freshId).1
  {
    var r := Upsert(s, no, value, freshId);
    if |s| == 0 {
    } else {
      ConsWellFormed(s[0], s[1..]);
      assert s == [s[0]] + s[1..];
      if s[0].no == no {
        ConsWellFormed(r.1, s[1..]);
        assert r.0 == [r.1] + s[1..];
      } else {
        var rest := Upsert(s[1..], no, value, freshId);
        UpsertWellFormed(s[1..], no, value, freshId);
        assert r.0 == [s[0]] + rest.0;
        forall e | e in rest.0
          ensures Apart(s[0], e)
        {
          if e.no == no && FindByNo(s[1..], no).Some? {
            assert FindByNo(s[1..], no).value in s[1..];
          }
        }
        ConsWellFormed(s[0], rest.0);
      }
    }
  }

  /**
   * `findById(id)` followed by `remove()`: the record with this id is taken
   * out; `None` when there is no such record. The removed record is returned
   * alongside the new store.
   */
  function DeleteById(s: Store, id: ObjectId): (r: Option<(Document, Store)>)
    ensures r.None? <==> FindById(s, id).None?
    ensures r.Some? ==> FindById(s, id) == Some(r.value.0)
    ensures r.Some? ==> |r.value.1| == |s| - 1
    ensures r.Some? ==> forall d | d in r.value.1 :: d in s
    ensures r.Some? ==> forall d | d in s && d.id != id :: d in r.value.1
    ensures r.Some? ==> multiset(r.value.1) == multiset(s) - multiset{r.value.0}
  {
    if |s| == 0 then None
    else
      assert s == [s[0]] + s[1..];
      if s[0].id == id then Some((s[0], s[1..]))
      else
      match DeleteById(s[1..], id)
      case None => None
      case Some(removed) => Some((removed.0, [s[0]] + removed.1))
  }

  /**
   * Deleting a record from a well-formed store removes its token number from
   * the lookups and changes nothing else.
   */
  lemma {:induction false} DeleteView(s: Store, id: ObjectId)
    requires WellFormed(s)
    requires DeleteById(s, id).Some?
    ensures WellFormed(DeleteById(s, id).value.1)
    ensures Traits(DeleteById(s, id).value.1) == Traits(s) - {DeleteById(s, id).value.0.no}
  {
    if s[0].id == id {
      assert DeleteById(s, id).value == (s[0], s[1..]);
      DropHead(s);
    } else {
      DeleteView(s[1..], id);
      DeleteLater(s, id);
    }
  }

  /** Dropping the first record of a well-formed store removes exactly its token from the view. */
  lemma DropHead(s: Store)
    requires WellFormed(s) && |s| > 0
    ensures WellFormed(s[1..])
    ensures Traits(s[1..]) == Traits(s) - {s[0].no}
  {
    ConsWellFormed(s[0], s[1..]);
    assert s == [s[0]] + s[1..];
    TraitsKeys(s[1..], s[0].no);
  }

  lemma DeleteLater(s: Store, id: ObjectId)
    requires WellFormed(s)
    requires DeleteById(s, id).Some? && s[0].id != id
    requires WellFormed(DeleteById(s[1..], id).value.1)
    requires Traits(DeleteById(s[1..], id).value.1) == Traits(s[1..]) - {DeleteById(s[1..], id).value.0.no}
    ensures WellFormed(DeleteById(s, id).value.1)
    ensures Traits(DeleteById(s, id).value.1) == Traits(s) - {DeleteById(s, id).value.0.no}
  {
    var inner := DeleteById(s[1..], id).value;
    assert DeleteById(s, id).value == (inner.0, [s[0]] + inner.1);
    ConsWellFormed(s[0], s[1..]);
    assert s == [s[0]] + s[1..];
    ConsWellFormed(s[0], inner.1);
    TraitsUnderHead(s[0], inner.1, Traits(s[1..]), inner.0.no);
  }

  lemma TraitsUnderHead(x: Document, t: Store, m: map<int, Decimal>, gone: int)
    requires Traits(t) == m - {gone} && x.no != gone
    ensures Traits([x] + t) == (m - {gone})[x.no := x.value]
    ensures (m - {gone})[x.no := x.value] == m[x.no := x.value] - {gone}
  {
    assert ([x] + t)[1..] == t;
  }
}
