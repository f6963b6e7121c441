/**
 * The Solidity ABI "non-standard packed mode" (`abi.encodePacked`, ethers'
 * `solidityPack`) for the one shape the service signs:
 * `(address, uint256[], uint256[])`. An address is its 20 raw bytes; each
 * array element is a 32-byte big-endian word; arrays carry no length prefix.
 */
module AbiPacked {

  type byte = b: int | 0 <= b < 256

  /** 2^256: every `uint256` is below it. */
  const WordLimit: nat := 0x1_0000_0000_0000_0000_0000_0000_0000_0000_0000_0000_0000_0000_0000_0000_0000_0000

  type Word = w: nat | w < WordLimit

  /** An Ethereum address as its 20 raw bytes. */
  type Address = s: seq<byte> | |s| == 20 witness seq(20, _ => 0)

  function Pow256(n: nat): (r: nat)
    ensures r >= 1
  {
    if n == 0 then 1 else 256 * Pow256(n - 1)
  }

  lemma WordLimitIsPow256()
    ensures Pow256(32) == WordLimit
  {
    assert Pow256(4) == 0x1_0000_0000;
    assert Pow256(8) == 0x1_0000_0000 * Pow256(4) by { Pow256Add(4, 4); }
    assert Pow256(16) == Pow256(8) * Pow256(8) by { Pow256Add(8, 8); }
    assert Pow256(32) == Pow256(16) * Pow256(16) by { Pow256Add(16, 16); }
  }

  lemma {:induction false} Pow256Add(a: nat, b: nat)
    ensures Pow256(a + b) == Pow256(a) * Pow256(b)
    decreases a
  {
    if a > 0 {
      Pow256Add(a - 1, b);
      assert Pow256(a + b) == 256 * Pow256(a - 1 + b);
    }
  }

  /** x as exactly n big-endian bytes. */
  function ToBigEndian(x: nat, n: nat): (r: seq<byte>)
    requires x < Pow256(n)
    ensures |r| == n
  {
    if n == 0 then []
    else
      assert x / 256 < Pow256(n - 1) by { DivBelow(x, Pow256(n - 1)); }
      ToBigEndian(x / 256, n - 1) + [x % 256]
  }

  lemma DivBelow(x: nat, p: nat)
    requires x < 256 * p
    ensures x / 256 < p
  {
  }

  /** The number a big-endian byte string denotes. */
  function FromBigEndian(bs: seq<byte>): (r: nat)
    ensures r < Pow256(|bs|)
  {
    if |bs| == 0 then 0
    else FromBigEndian(bs[..|bs| - 1]) * 256 + bs[|bs| - 1]
  }

  lemma {:induction false} FromToBigEndian(x: nat, n: nat)
    requires x < Pow256(n)
    ensures FromBigEndian(ToBigEndian(x, n)) == x
  {
    if n > 0 {
      DivBelow(x, Pow256(n - 1));
      var bs := ToBigEndian(x, n);
      assert bs[..n - 1] == ToBigEndian(x / 256, n - 1);
      FromToBigEndian(x / 256, n - 1);
    }
  }

  lemma {:induction false} ToFromBigEndian(bs: seq<byte>)
    ensures ToBigEndian(FromBigEndian(bs), |bs|) == bs
  {
    if |bs| > 0 {
      var init := bs[..|bs| - 1];
      var x := FromBigEndian(bs);
      assert x / 256 == FromBigEndian(init) && x % 256 == bs[|bs| - 1];
      ToFromBigEndian(init);
      assert bs == init + [bs[|bs| - 1]];
    }
  }

  /** One `uint256` as a 32-byte big-endian word. */
  function WordBytes(w: Word): (r: seq<byte>)
    ensures |r| == 32
    ensures FromBigEndian(r) == w
  {
    WordLimitIsPow256();
    FromToBigEndian(w, 32);
    ToBigEndian(w, 32)
  }

  /** The elements of a `uint256[]`, word after word, with no length prefix. */
  function PackWords(ws: seq<Word>): (r: seq<byte>)
    ensures |r| == 32 * |ws|
  {
    if |ws| == 0 then [] else WordBytes(ws[0]) + PackWords(ws[1..])
  }

  /** Reads back a run of 32-byte words. */
  function UnpackWords(bs: seq<byte>): (r: seq<Word>)
    requires |bs| % 32 == 0
    ensures 32 * |r| == |bs|
    decreases |bs|
  {
    if |bs| == 0 then []
    else
      WordLimitIsPow256();
      [FromBigEndian(bs[..32]) as Word] + UnpackWords(bs[32..])
  }

  lemma {:induction false} UnpackPackWords(ws: seq<Word>)
    ensures UnpackWords(PackWords(ws)) == ws
  {
    if |ws| > 0 {
      var head, rest := WordBytes(ws[0]), PackWords(ws[1..]);
      assert (head + rest)[..32] == head;
      assert (head + rest)[32..] == rest;
      UnpackPackWords(ws[1..]);
      assert ws == [ws[0]] + ws[1..];
    }
  }

  /**
   * `solidityPack(["address", "uint256[]", "uint256[]"], [subject, ids, values])`.
   */
  function Pack(subject: Address, ids: seq<Word>, values: seq<Word>): (r: seq<byte>)
    ensures |r| == 20 + 32 * (|ids| + |values|)
    ensures r[..20] == subject
  {
    subject + PackWords(ids) + PackWords(values)
  }

  /** Splits a packed attestation message whose two arrays hold `n` words each. */
  function Unpack(bs: seq<byte>, n: nat): (r: (Address, seq<Word>, seq<Word>))
    requires |bs| == 20 + 2 * 32 * n
    ensures |r.1| == n && |r.2| == n
  {
    var mid := 20 + 32 * n;
    (bs[..20], UnpackWords(bs[20..mid]), UnpackWords(bs[mid..]))
  }

  /** With index-aligned arrays the packed message has length 20 + 64·n and decodes back to its parts. */
  lemma UnpackPack(subject: Address, ids: seq<Word>, values: seq<Word>)
    requires |ids| == |values|
    ensures |Pack(subject, ids, values)| == 20 + 2 * 32 * |ids|
    ensures Unpack(Pack(subject, ids, values), |ids|) == (subject, ids, values)
  {
    PackLength(subject, ids, values);
    PackDecodes(subject, ids, values);
  }

  /** Aligned arrays of n words each pack to 20 + 64·n bytes. */
  lemma PackLength(subject: Address, ids: seq<Word>, values: seq<Word>)
    requires |ids| == |values|
    ensures |Pack(subject, ids, values)| == 20 + 2 * 32 * |ids|
  {
  }

  /** The decoder recovers the address and both arrays from the packed bytes. */
  lemma PackDecodes(subject: Address, ids: seq<Word>, values: seq<Word>)
    requires |ids| == |values|
    requires |Pack(subject, ids, values)| == 20 + 2 * 32 * |ids|
    ensures Unpack(Pack(subject, ids, values), |ids|) == (subject, ids, values)
  {
    var a, b := PackWords(ids), PackWords(values);
    assert Pack(subject, ids, values) == subject + a + b;
    UnpackConcat(subject, a, b, |ids|);
    UnpackPackWords(ids);
    UnpackPackWords(values);
  }

  /** Unpacking an address followed by two runs of n words splits it at the run boundaries. */
  lemma UnpackConcat(x: Address, a: seq<byte>, b: seq<byte>, n: nat)
    requires |a| == 32 * n && |b| == 32 * n
    ensures Unpack(x + a + b, n) == (x, UnpackWords(a), UnpackWords(b))
  {
    ConcatSlices(x, a, b);
  }

  lemma ConcatSlices(x: seq<byte>, a: seq<byte>, b: seq<byte>)
    ensures (x + a + b)[..|x|] == x
    ensures (x + a + b)[|x|..|x| + |a|] == a
    ensures (x + a + b)[|x| + |a|..] == b
  {
  }

  /**
   * The packed message determines the subject and both arrays: two aligned
   * attestations that pack to the same bytes are the same attestation.
   */
  lemma PackInjective(s1: Address, ids1: seq<Word>, vals1: seq<Word>,
                      s2: Address, ids2: seq<Word>, vals2: seq<Word>)
    requires |ids1| == |vals1| && |ids2| == |vals2|
    requires Pack(s1, ids1, vals1) == Pack(s2, ids2, vals2)
    ensures s1 == s2 && ids1 == ids2 && vals1 == vals2
  {
    UnpackPack(s1, ids1, vals1);
    UnpackPack(s2, ids2, vals2);
  }
}
