/**
 * Ethereum personal-message signing (EIP-191, version byte 0x45), as ethers'
 * `signMessage` and `verifyMessage` perform it: the message is prefixed with
 * "\x19Ethereum Signed Message:\n" and its decimal byte length, hashed with
 * keccak256, and that digest is signed or has its signer recovered.
 */
module PersonalSign {
  import opened Wrappers
  import opened AbiPacked

  /** A keccak256 digest. */
  type Digest = s: seq<byte> | |s| == 32 witness seq(32, _ => 0)

  /** A signature as ethers renders it: the hex text of r ‖ s ‖ v. */
  type Signature = string

  /**
   * The cryptography the service relies on. Nothing is known of keccak256 or
   * of secp256k1 public-key recovery beyond their being functions.
   * `recover` yields None for a malformed signature, where ethers throws.
   */
  datatype Crypto = Crypto(
    keccak: seq<byte> -> Digest,
    recover: (Digest, Signature) -> Option<Address>)

  /** Signing a digest with one fixed private key. */
  type Signer = Digest -> Signature

  /** The UTF-8 encoding of one Unicode scalar value. */
  function Utf8Char(c: char): (r: seq<byte>)
    ensures 1 <= |r| <= 4
    ensures (c as int < 0x80) <==> |r| == 1
    ensures |r| == 1 ==> r[0] == c as int
  {
    var n := c as int;
    if n < 0x80 then [n]
    else if n < 0x800 then [0xC0 + n / 0x40, 0x80 + n % 0x40]
    else if n < 0x1_0000 then [0xE0 + n / 0x1000, 0x80 + (n / 0x40) % 0x40, 0x80 + n % 0x40]
    else [0xF0 + n / 0x4_0000, 0x80 + (n / 0x1000) % 0x40, 0x80 + (n / 0x40) % 0x40, 0x80 + n % 0x40]
  }

  /** ethers' `toUtf8Bytes`. */
  function Utf8(s: string): (r: seq<byte>)
    ensures |r| >= |s|
    ensures (forall i | 0 <= i < |s| :: s[i] as int < 0x80) ==> |r| == |s|
  {
    if |s| == 0 then [] else Utf8Char(s[0]) + Utf8(s[1..])
  }

  /** For text made of ASCII characters the encoding is the character codes themselves. */
  lemma {:induction false} Utf8Ascii(s: string)
    requires forall i | 0 <= i < |s| :: s[i] as int < 0x80
    ensures |Utf8(s)| == |s|
    ensures forall i | 0 <= i < |s| :: Utf8(s)[i] == s[i] as int
  {
    if |s| > 0 {
      Utf8Ascii(s[1..]);
      assert Utf8(s) == [s[0] as int] + Utf8(s[1..]);
    }
  }

  /** JavaScript's `String(n)` for a non-negative integer. */
  function DecimalString(n: nat): (r: string)
    ensures |r| >= 1
    ensures forall i | 0 <= i < |r| :: '0' <= r[i] <= '9'
  {
    if n < 10 then [DigitChar(n)] else DecimalString(n / 10) + [DigitChar(n % 10)]
  }

  function DigitChar(d: nat): (c: char)
    requires d < 10
    ensures '0' <= c <= '9'
  {
    ('0' as int + d) as char
  }

  /** Reads a string of decimal digits back as a number. */
  function DecimalValue(s: string): nat
    requires forall i | 0 <= i < |s| :: '0' <= s[i] <= '9'
  {
    if |s| == 0 then 0 else DecimalValue(s[..|s| - 1]) * 10 + (s[|s| - 1] as int - '0' as int)
  }

  lemma {:induction false} DecimalRoundTrip(n: nat)
    ensures DecimalValue(DecimalString(n)) == n
  {
    if n >= 10 {
      var s := DecimalString(n);
      assert s[..|s| - 1] == DecimalString(n / 10);
      DecimalRoundTrip(n / 10);
    }
  }

  /** Longer messages never have shorter length fields. */
  lemma {:induction false} DecimalStringMonotone(a: nat, b: nat)
    requires a <= b
    ensures |DecimalString(a)| <= |DecimalString(b)|
  {
    if a >= 10 {
      DecimalStringMonotone(a / 10, b / 10);
    }
  }

  /**
   * The fixed EIP-191 header "\x19Ethereum Signed Message:\n" as bytes: 0x19,
   * then the version byte 0x45 ('E') and the rest of the ASCII text, then a newline.
   */
  const MessageHeader: seq<byte> :=
    [0x19, 0x45, 0x74, 0x68, 0x65, 0x72, 0x65, 0x75, 0x6d, 0x20, 0x53, 0x69, 0x67,
     0x6e, 0x65, 0x64, 0x20, 0x4d, 0x65, 0x73, 0x73, 0x61, 0x67, 0x65, 0x3a, 0x0a]

  /** The bytes ethers' `hashMessage` hashes. */
  function PersonalMessage(m: seq<byte>): seq<byte> {
    MessageHeader + Utf8(DecimalString(|m|)) + m
  }

  /**
   * A personal message determines the message it wraps: the length field is
   * canonical, so the total length grows strictly with the message.
   */
  lemma PersonalMessageInjective(m1: seq<byte>, m2: seq<byte>)
    requires PersonalMessage(m1) == PersonalMessage(m2)
    ensures m1 == m2
  {
    var d1, d2 := DecimalString(|m1|), DecimalString(|m2|);
    Utf8Ascii(d1);
    Utf8Ascii(d2);
    if |m1| < |m2| {
      DecimalStringMonotone(|m1|, |m2|);
    } else if |m2| < |m1| {
      DecimalStringMonotone(|m2|, |m1|);
    } else {
      var k := |MessageHeader| + |Utf8(d1)|;
      assert m1 == PersonalMessage(m1)[k..];
      assert m2 == PersonalMessage(m2)[k..];
    }
  }

  /** A 32-byte digest is wrapped behind the header and the two characters "32". */
  lemma DigestPersonalMessage(m: Digest)
    ensures PersonalMessage(m) == MessageHeader + [0x33, 0x32] + m
    ensures |PersonalMessage(m)| == 60
  {
    assert DecimalString(32) == DecimalString(3) + [DigitChar(2)];
    assert DecimalString(32) == ['3', '2'];
    assert Utf8(['2']) == [0x32];
    assert Utf8(['3', '2']) == Utf8Char('3') + Utf8(['2']);
  }

  /** ethers' `hashMessage`. */
  function HashMessage(crypto: Crypto, m: seq<byte>): Digest {
    crypto.keccak(PersonalMessage(m))
  }

  /** ethers' `Signer.signMessage` on raw bytes. */
  function SignMessage(crypto: Crypto, signer: Signer, m: seq<byte>): Signature {
    signer(HashMessage(crypto, m))
  }

  /** ethers' `verifyMessage` on a text message: the address that signed it, if the signature is well formed. */
  function VerifyMessage(crypto: Crypto, message: string, sig: Signature): Option<Address> {
    crypto.recover(HashMessage(crypto, Utf8(message)), sig)
  }
}
