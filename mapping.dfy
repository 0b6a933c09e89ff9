/**
 * `mapXrplSecretToEvm`: an XRPL seed string is reinterpreted, byte for byte,
 * as an EVM private key. The seed's UTF-8 bytes are rendered as lowercase
 * hex, the hex is left-padded with '0' to 64 digits, and the padded hex is
 * decoded back into the key. The XRPL wallet derived from the same seed only
 * supplies the two XRPL fields of the result.
 */
module XrplEvmMapping {
  import opened Wrappers
  import opened Bytes
  import Utf8
  import Hex
  import Strings

  /** The two fields of the XRPL wallet that the mapping reads; the wallet's seed is optional in its type. */
  datatype XrplWallet = XrplWallet(address: string, seed: Option<string>)

  /**
   * The foreign primitives the mapping calls, each of which may throw (None):
   * XRPL seed decoding and key derivation (`Wallet.fromSeed`), secp256k1
   * public key derivation (`privateToPublic`) and EVM address derivation
   * (`privateToAddress`). Nothing about them is assumed.
   */
  datatype Primitives = Primitives(
    walletFromSeed: string -> Option<XrplWallet>,
    privateToPublic: seq<Byte> -> Option<seq<Byte>>,
    privateToAddress: seq<Byte> -> Option<seq<Byte>>)

  /** The record `Mapped_Keys`: five strings, the three EVM ones in hex. */
  datatype MappedKeys = MappedKeys(
    xrplAddress: string,
    xrplSecret: string,
    mappedEvmPrivateKey: string,
    mappedEvmPublicKey: string,
    mappedEvmPublicAddress: string)

  /** Which of the foreign calls threw; the first one that throws ends the mapping. */
  datatype MappingError = SeedRejected | PublicKeyRejected | AddressRejected

  /** The width, in hex digits, to which the seed's hex is padded. */
  const KeyHexWidth: nat := 64

  /** The length in bytes of an EVM private key. */
  const KeyLength: nat := 32

  /**
   * `secretKeyToHex.padStart(64, "0")` after the UTF-8 step: the bytes
   * rendered as hex and left-padded with '0' to 64 digits.
   */
  function PaddedHex(e: seq<Byte>): (r: string)
  {
    Strings.PadStart(Hex.ToHex(e), KeyHexWidth, '0')
  }

  /** `Buffer.from(padded_secret_key, "hex")`: the padded hex decoded back into bytes, the key. */
  function KeyOfBytes(e: seq<Byte>): (r: seq<Byte>)
  {
    Hex.FromHex(PaddedHex(e))
  }

  /** `padded_secret_key`: the hex of the seed's UTF-8 bytes, padded to 64 digits. */
  function PaddedSecretKey(secret: string): (r: string)
    ensures var n := |Utf8.Encode(secret)|;
      |r| == (if 2 * n < KeyHexWidth then KeyHexWidth else 2 * n)
    ensures r[|r| - 2 * |Utf8.Encode(secret)|..] == Hex.ToHex(Utf8.Encode(secret))
    ensures Hex.IsLowerHex(r)
  {
    var e := Utf8.Encode(secret);
    PaddedHexLength(e);
    PaddedHexDigits(e);
    PaddedHex(e)
  }

  /**
   * `mapped_private_key`: the mapped EVM private key of a seed. Its hex is
   * `padded_secret_key`, it denotes the same number as the seed's bytes, it
   * is 32 bytes for a seed of up to 32 bytes and the seed's own bytes beyond.
   */
  function MappedPrivateKey(secret: string): (r: seq<Byte>)
    ensures Hex.ToHex(r) == PaddedSecretKey(secret)
    ensures Value(r) == Value(Utf8.Encode(secret))
    ensures |Utf8.Encode(secret)| <= KeyLength ==> |r| == KeyLength
    ensures |Utf8.Encode(secret)| >= KeyLength ==> r == Utf8.Encode(secret)
  {
    var e := Utf8.Encode(secret);
    KeyHexRoundTrip(e);
    KeyValuePreserved(e);
    if |e| <= KeyLength then
      ShortKey(e);
      KeyOfBytes(e)
    else
      LongKey(e);
      KeyOfBytes(e)
  }

  /**
   * The padded hex of n bytes is max(64, 2n) digits long, and the number of
   * '0's added is even.
   */
  lemma PaddedHexLength(e: seq<Byte>)
    ensures |PaddedHex(e)| == (if 2 * |e| < KeyHexWidth then KeyHexWidth else 2 * |e|)
    ensures |PaddedHex(e)| % 2 == 0 && (|PaddedHex(e)| - 2 * |e|) % 2 == 0
  {
    EvenPadding(|PaddedHex(e)|, |Hex.ToHex(e)|);
  }

  /**
   * The padded hex ends with the unpadded hex, has only '0' before it, and
   * is lowercase hex throughout.
   */
  lemma PaddedHexDigits(e: seq<Byte>)
    ensures var r, h := PaddedHex(e), Hex.ToHex(e);
      && r[|r| - |h|..] == h
      && (forall i :: 0 <= i < |r| - |h| ==> r[i] == '0')
    ensures Hex.IsLowerHex(PaddedHex(e))
  {
    ZeroPaddedHex(Hex.ToHex(e), KeyHexWidth);
  }

  /** Either of the two possible padded lengths leaves an even number of '0's. */
  lemma EvenPadding(width: nat, hexLength: nat)
    requires hexLength % 2 == 0 && (width == KeyHexWidth || width == hexLength)
    ensures width % 2 == 0 && (width - hexLength) % 2 == 0
  {
  }

  /** Padding lowercase hex with '0' keeps it lowercase hex. */
  lemma ZeroPaddedHex(h: string, width: nat)
    requires Hex.IsLowerHex(h)
    ensures Hex.IsLowerHex(Strings.PadStart(h, width, '0'))
  {
    var r := Strings.PadStart(h, width, '0');
    forall i | 0 <= i < |r|
      ensures Hex.IsLowerHexDigit(r[i])
    {
      if i >= |r| - |h| {
        assert r[i] == r[|r| - |h|..][i - (|r| - |h|)];
      }
    }
  }

  /**
   * A JavaScript template literal `${x}` of an optional string: an absent
   * value prints as "undefined", so it cannot be told apart from the string
   * "undefined".
   */
  function TemplateString(x: Option<string>): (r: string)
    ensures x.Some? ==> r == x.value
    ensures r == "undefined" <==> x.None? || x == Some("undefined")
  {
    match x
    case Some(s) => s
    case None => "undefined"
  }

  /**
   * `mapXrplSecretToEvm(secret)`: derives the XRPL wallet, maps the seed to
   * the EVM private key, derives the EVM public key and address from that key
   * and assembles the record. A throwing foreign call becomes a Failure.
   * On success the private key field is the padded hex of the seed and the
   * address field starts with "0x".
   */
  function MapXrplSecretToEvm(p: Primitives, secret: string): (r: Result<MappedKeys, MappingError>)
    ensures r.Success? ==> r.value.mappedEvmPrivateKey == PaddedSecretKey(secret)
    ensures r.Success? ==> Hex.IsLowerHex(r.value.mappedEvmPrivateKey)
    ensures r.Success? ==> |r.value.mappedEvmPublicAddress| >= 2 && r.value.mappedEvmPublicAddress[..2] == "0x"
  {
    match p.walletFromSeed(secret)
    case None => Failure(SeedRejected)
    case Some(wallet) =>
      var key := MappedPrivateKey(secret);
      match p.privateToPublic(key)
      case None => Failure(PublicKeyRejected)
      case Some(publicKey) =>
        match p.privateToAddress(key)
        case None => Failure(AddressRejected)
        case Some(address) =>
          Success(MappedKeys(
            wallet.address,
            TemplateString(wallet.seed),
            Hex.ToHex(key),
            Hex.ToHex(publicKey),
            "0x" + Hex.ToHex(address)))
  }

  /**
   * At most 32 bytes map to a key of exactly 32 bytes: 32 - n zero bytes
   * followed by the bytes themselves.
   */
  lemma ShortKey(e: seq<Byte>)
    requires |e| <= KeyLength
    ensures KeyOfBytes(e) == Zeros(KeyLength - |e|) + e
    ensures |KeyOfBytes(e)| == KeyLength
  {
    var k := KeyLength - |e|;
    ShortPadding(e);
    Hex.ToHexZeros(k);
    Hex.ToHexAppend(Zeros(k), e);
    Hex.FromHexToHex(Zeros(k) + e);
  }

  /** For at most 32 bytes, padding adds 2(32 - n) '0's. */
  lemma ShortPadding(e: seq<Byte>)
    requires |e| <= KeyLength
    ensures PaddedHex(e) == Strings.Repeat('0', 2 * (KeyLength - |e|)) + Hex.ToHex(e)
  {
    PadEvenHex(Hex.ToHex(e), |e|);
  }

  /** A string of 2n characters, n at most 32, is padded with 2(32 - n) '0's. */
  lemma PadEvenHex(h: string, n: nat)
    requires |h| == 2 * n && n <= KeyLength
    ensures Strings.PadStart(h, KeyHexWidth, '0') == Strings.Repeat('0', 2 * (KeyLength - n)) + h
  {
    Strings.PadStartCount(h, KeyHexWidth, '0');
  }

  /**
   * Padding never truncates: 32 bytes or more map to themselves, unchanged,
   * so more than 32 bytes give a key longer than an EVM private key.
   */
  lemma LongKey(e: seq<Byte>)
    requires |e| >= KeyLength
    ensures KeyOfBytes(e) == e
    ensures |e| > KeyLength ==> |KeyOfBytes(e)| > KeyLength
  {
    assert PaddedHex(e) == Hex.ToHex(e);
    Hex.FromHexToHex(e);
  }

  /** Rendering the key as hex gives back the padded hex string. */
  lemma KeyHexRoundTrip(e: seq<Byte>)
    ensures Hex.ToHex(KeyOfBytes(e)) == PaddedHex(e)
    ensures |KeyOfBytes(e)| == |PaddedHex(e)| / 2
  {
    PaddedHexLength(e);
    PaddedHexDigits(e);
    Hex.ToHexFromHex(PaddedHex(e));
  }

  /** Leading zero bytes add nothing: the key denotes the same number as the bytes it came from, read big-endian. */
  lemma KeyValuePreserved(e: seq<Byte>)
    ensures Value(KeyOfBytes(e)) == Value(e)
  {
    if |e| <= KeyLength {
      ShortKey(e);
      ValueZeroPrefix(KeyLength - |e|, e);
    } else {
      LongKey(e);
    }
  }

  /** At most 32 bytes map to a number that fits in 256 bits. */
  lemma ShortKeyFits(e: seq<Byte>)
    requires |e| <= KeyLength
    ensures Value(KeyOfBytes(e)) < Pow256(KeyLength)
  {
    ShortKey(e);
    ValueBound(KeyOfBytes(e));
  }

  /** Seeds of the same UTF-8 length that map to the same key are the same seed. */
  lemma KeyInjectiveAtEqualLength(s: string, t: string)
    requires |Utf8.Encode(s)| == |Utf8.Encode(t)|
    requires MappedPrivateKey(s) == MappedPrivateKey(t)
    ensures s == t
  {
    var es, et := Utf8.Encode(s), Utf8.Encode(t);
    if |es| <= KeyLength {
      ShortKey(es);
      ShortKey(et);
      ZeroPrefixCancel(KeyLength - |es|, es, et);
    } else {
      LongKey(es);
      LongKey(et);
    }
    Utf8.EncodeInjective(s, t);
  }

  /**
   * Without equal lengths the key does not identify the seed: a short seed and
   * the same seed behind a U+0000 character share their key.
   */
  lemma LeadingNulCollision(secret: string)
    requires |Utf8.Encode(secret)| < KeyLength
    ensures "\0" + secret != secret
    ensures MappedPrivateKey("\0" + secret) == MappedPrivateKey(secret)
  {
    var e := Utf8.Encode(secret);
    var t := "\0" + secret;
    var n := |e|;
    assert t[0] == '\0' && t[1..] == secret;
    assert Utf8.Encode(t) == Utf8.EncodeScalar('\0') + e;
    assert Utf8.Encode(t) == Zeros(1) + e;
    ShortKey(e);
    ShortKey(Zeros(1) + e);
    ZerosAppend(KeyLength - (n + 1), e);
  }

  /** The seed strings of XRPL are base58, hence ASCII: one byte per character, so up to 32 characters give a 32-byte key. */
  lemma AsciiSecretKey(secret: string)
    requires forall i :: 0 <= i < |secret| ==> Utf8.IsAscii(secret[i])
    ensures |Utf8.Encode(secret)| == |secret|
    ensures |secret| <= KeyLength ==> |MappedPrivateKey(secret)| == KeyLength
    ensures |secret| >= KeyLength ==> |MappedPrivateKey(secret)| == |secret|
  {
    var e := Utf8.Encode(secret);
    Utf8.EncodeAscii(secret);
    if |e| <= KeyLength {
      ShortKey(e);
    } else {
      LongKey(e);
    }
  }

  /**
   * The mapping fails exactly when one of the foreign calls throws, and it
   * reports the first one: the wallet, then the public key, then the address.
   */
  lemma MapOutcome(p: Primitives, secret: string)
    ensures var key := MappedPrivateKey(secret);
      MapXrplSecretToEvm(p, secret).Success? <==>
        p.walletFromSeed(secret).Some? && p.privateToPublic(key).Some? && p.privateToAddress(key).Some?
    ensures MapXrplSecretToEvm(p, secret) == Failure(SeedRejected) <==> p.walletFromSeed(secret).None?
    ensures var key := MappedPrivateKey(secret);
      MapXrplSecretToEvm(p, secret) == Failure(PublicKeyRejected) <==>
        p.walletFromSeed(secret).Some? && p.privateToPublic(key).None?
    ensures var key := MappedPrivateKey(secret);
      MapXrplSecretToEvm(p, secret) == Failure(AddressRejected) <==>
        p.walletFromSeed(secret).Some? && p.privateToPublic(key).Some? && p.privateToAddress(key).None?
  {
  }

  /**
   * The fields of a successful mapping: the XRPL ones echo the wallet, the
   * private key field is the padded hex of the seed, and the public key and
   * address fields are the hex of the primitives' results on the mapped key,
   * the address behind "0x".
   */
  lemma MappedFields(p: Primitives, secret: string)
    requires MapXrplSecretToEvm(p, secret).Success?
    ensures var r := MapXrplSecretToEvm(p, secret).value;
      var wallet := p.walletFromSeed(secret).value;
      var key := MappedPrivateKey(secret);
      && r.xrplAddress == wallet.address
      && r.xrplSecret == (if wallet.seed.Some? then wallet.seed.value else "undefined")
      && r.mappedEvmPrivateKey == PaddedSecretKey(secret)
      && r.mappedEvmPublicKey == Hex.ToHex(p.privateToPublic(key).value)
      && r.mappedEvmPublicAddress == "0x" + Hex.ToHex(p.privateToAddress(key).value)
  {
    var key := MappedPrivateKey(secret);
    var wallet := p.walletFromSeed(secret).value;
    var publicKey, address := p.privateToPublic(key).value, p.privateToAddress(key).value;
    assert MapXrplSecretToEvm(p, secret).value == MappedKeys(
      wallet.address, TemplateString(wallet.seed), Hex.ToHex(key), Hex.ToHex(publicKey), "0x" + Hex.ToHex(address));
    KeyHexRoundTrip(Utf8.Encode(secret));
  }

  /**
   * The private key field of a successful mapping is the seed's hex padded to
   * 64 digits: exactly 64 lowercase digits for a seed of up to 32 bytes, two
   * per byte for a longer one.
   */
  lemma PrivateKeyField(p: Primitives, secret: string)
    requires MapXrplSecretToEvm(p, secret).Success?
    ensures var f := MapXrplSecretToEvm(p, secret).value.mappedEvmPrivateKey;
      var n := |Utf8.Encode(secret)|;
      && Hex.IsLowerHex(f)
      && (n <= KeyLength ==> |f| == KeyHexWidth)
      && (n >= KeyLength ==> f == Hex.ToHex(Utf8.Encode(secret)))
  {
    MappedFields(p, secret);
    PaddedHexLength(Utf8.Encode(secret));
    PaddedHexDigits(Utf8.Encode(secret));
  }

  /**
   * The EVM fields do not depend on the XRPL wallet: two runs that differ only
   * in what `Wallet.fromSeed` returns, and both succeed, agree on the three
   * mapped fields.
   */
  lemma WalletIndependence(p: Primitives, q: Primitives, secret: string)
    requires p.privateToPublic == q.privateToPublic && p.privateToAddress == q.privateToAddress
    requires MapXrplSecretToEvm(p, secret).Success? && MapXrplSecretToEvm(q, secret).Success?
    ensures var r, s := MapXrplSecretToEvm(p, secret).value, MapXrplSecretToEvm(q, secret).value;
      && r.mappedEvmPrivateKey == s.mappedEvmPrivateKey
      && r.mappedEvmPublicKey == s.mappedEvmPublicKey
      && r.mappedEvmPublicAddress == s.mappedEvmPublicAddress
  {
  }

  /**
   * When the address primitive returns a 20-byte address, the address field
   * is "0x" followed by exactly 40 lowercase hex digits.
   */
  lemma AddressFieldShape(p: Primitives, secret: string)
    requires MapXrplSecretToEvm(p, secret).Success?
    requires |p.privateToAddress(MappedPrivateKey(secret)).value| == 20
    ensures var a := MapXrplSecretToEvm(p, secret).value.mappedEvmPublicAddress;
      |a| == 42 && a[..2] == "0x" && Hex.IsLowerHex(a[2..])
  {
    var a := MapXrplSecretToEvm(p, secret).value.mappedEvmPublicAddress;
    assert a[2..] == Hex.ToHex(p.privateToAddress(MappedPrivateKey(secret)).value);
  }

  /** A 31-character ASCII seed keeps its 31 bytes behind one zero byte, "00" in the padded hex. */
  lemma OneZeroByte(secret: string)
    requires |secret| == KeyLength - 1
    requires forall i :: 0 <= i < |secret| ==> Utf8.IsAscii(secret[i])
    ensures MappedPrivateKey(secret) == [0] + Utf8.Encode(secret)
    ensures PaddedSecretKey(secret)[..2] == "00"
  {
    var e := Utf8.Encode(secret);
    AsciiSecretKey(secret);
    ShortKey(e);
    assert Zeros(1) == [0];
    ShortPadding(e);
    assert Strings.Repeat('0', 2) == "00";
  }

  /** The seed of the worked example, 31 base58 characters, is padded with exactly one zero byte. */
  lemma ExampleSeedKey()
    ensures var s := "sEdTM1uX8pu2do5XvTnutH6HsouMaM2";
      MappedPrivateKey(s) == [0] + Utf8.Encode(s) && PaddedSecretKey(s)[..2] == "00"
  {
    OneZeroByte("sEdTM1uX8pu2do5XvTnutH6HsouMaM2");
  }
}
