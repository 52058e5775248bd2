/**
 * CryptoUtils: the wallet's key protection, address derivation, transaction canonicalisation,
 * signing and verification. SHA-256, AES/ECB/PKCS5, Base64, the EC key factory and ECDSA are
 * foreign calls: they are the fields of a `Crypto` value passed in, constrained only by the laws
 * stated below.
 */
module CryptoUtils {
  import opened Base
  import Utf8
  import Hex

  type Digest = s: seq<byte> | |s| == 32 witness seq(32, _ => 0)
  type AesKey = s: seq<byte> | |s| == 16 witness seq(16, _ => 0)
  type Bytes8 = s: seq<byte> | |s| == 8 witness seq(8, _ => 0)

  /** A secp256k1 public key by its X.509 encoding. */
  datatype PublicKey = PublicKey(encoded: seq<byte>)
  /** A secp256k1 private key by its PKCS#8 encoding. */
  datatype PrivateKey = PrivateKey(encoded: seq<byte>)
  datatype KeyPair = KeyPair(publicKey: PublicKey, privateKey: PrivateKey)

  datatype WalletData = WalletData(
    publicKey: string,            // Base64 of the encoded public key
    address: string,
    encryptedPrivateKey: string,  // Base64 of the AES ciphertext of the encoded private key
    cardId: string,
    createdAt: int)

  datatype TransactionData = TransactionData(
    from: string, to: string, amount: string,
    gasPrice: Option<string>, gasLimit: Option<string>, nonce: Option<string>, data: Option<string>)

  datatype SignatureResult = SignatureResult(signature: string, publicKey: string, transactionHash: string)

  /** The cryptographic provider. */
  datatype Crypto = Crypto(
    sha256: seq<byte> -> Digest,
    aesEncrypt: (AesKey, seq<byte>) -> seq<byte>,           // AES/ECB/PKCS5Padding, encrypt mode
    aesDecrypt: (AesKey, seq<byte>) -> Result<seq<byte>>,   // decrypt mode; fails on bad padding
    base64Encode: seq<byte> -> string,                      // Base64.NO_WRAP
    base64Decode: string -> Result<seq<byte>>,
    loadPrivateKey: seq<byte> -> Result<PrivateKey>,        // KeyFactory "EC", PKCS8EncodedKeySpec
    loadPublicKey: seq<byte> -> Result<PublicKey>,          // KeyFactory "EC", X509EncodedKeySpec
    ecdsaSign: (PrivateKey, seq<byte>) -> seq<byte>,        // SHA256withECDSA
    ecdsaVerify: (PublicKey, seq<byte>, seq<byte>) -> Result<bool>)

  /** The laws the model assumes of the provider: the cipher and Base64 invert their encoders. */
  ghost predicate Lawful(c: Crypto)
  {
    && (forall k, m :: c.aesDecrypt(k, c.aesEncrypt(k, m)) == Success(m))
    && (forall b :: c.base64Decode(c.base64Encode(b)) == Success(b))
  }

  const DecryptErrorPrefix := "私钥解密失败: "
  const SignErrorPrefix := "交易签名失败: "

  // ---------------------------------------------------------------------------------------------
  // Hex

  predicate IsLowerHexDigit(c: char)
  {
    '0' <= c <= '9' || 'a' <= c <= 'f'
  }

  predicate IsUpperHexDigit(c: char)
  {
    '0' <= c <= '9' || 'A' <= c <= 'F'
  }

  predicate IsLowerHex(s: string)
  {
    forall k :: 0 <= k < |s| ==> IsLowerHexDigit(s[k])
  }

  /** The digit `%x` prints for a nibble. */
  function LowerHexDigit(n: int): (c: char)
    requires 0 <= n < 16
    ensures IsLowerHexDigit(c) && Hex.DigitValue(c) == Some(n)
  {
    if n < 10 then ('0' as int + n) as char else ('a' as int + n - 10) as char
  }

  /** bytesToHex: `"%02x".format` of every byte, joined, high nibble first. */
  function BytesToHex(bytes: seq<byte>): (hex: string)
    ensures |hex| == 2 * |bytes|
    ensures forall i :: 0 <= i < |bytes| ==>
      hex[2 * i] == LowerHexDigit(bytes[i] as int / 16) && hex[2 * i + 1] == LowerHexDigit(bytes[i] as int % 16)
  {
    var hex := seq(2 * |bytes|, k requires 0 <= k < 2 * |bytes| =>
      if k % 2 == 0 then LowerHexDigit(bytes[k / 2] as int / 16) else LowerHexDigit(bytes[k / 2] as int % 16));
    assert forall i :: 0 <= i < |bytes| ==> (2 * i) / 2 == i && (2 * i) % 2 == 0 && (2 * i + 1) / 2 == i && (2 * i + 1) % 2 == 1;
    hex
  }

  /** The output of bytesToHex is lower-case hex that decodes back to its input. */
  lemma BytesToHexRoundTrip(bytes: seq<byte>)
    ensures IsLowerHex(BytesToHex(bytes))
    ensures Hex.Decode(BytesToHex(bytes)) == Some(bytes)
  {
    var hex := BytesToHex(bytes);
    forall k | 0 <= k < |hex| ensures IsLowerHexDigit(hex[k]) {
      var i := k / 2;
      assert k == 2 * i || k == 2 * i + 1;
    }
    Hex.DecodePairs(hex, bytes);
  }

  predicate IsAscii(s: string)
  {
    forall k :: 0 <= k < |s| ==> s[k] as int < 0x80
  }

  /** Kotlin's `lowercase()` on ASCII text. */
  function ToLowerAscii(s: string): (r: string)
    requires IsAscii(s)
    ensures |r| == |s|
  {
    seq(|s|, i requires 0 <= i < |s| => if 'A' <= s[i] <= 'Z' then (s[i] as int + 32) as char else s[i])
  }

  /** Kotlin's `uppercase()` on ASCII text. */
  function ToUpperAscii(s: string): (r: string)
    requires IsAscii(s)
    ensures |r| == |s|
  {
    seq(|s|, i requires 0 <= i < |s| => UpperChar(s[i]))
  }

  function UpperChar(c: char): (u: char)
    requires c as int < 0x80
  {
    if 'a' <= c <= 'z' then (c as int - 32) as char else c
  }

  // ---------------------------------------------------------------------------------------------
  // Identity, key derivation, key protection

  /**
   * generateEthereumAddress: "0x" and the lower-case hex of the last 20 bytes (bytes 12..31) of
   * SHA-256 of the encoded public key.
   */
  function GenerateEthereumAddress(c: Crypto, publicKey: PublicKey): (address: string)
    ensures |address| == 42 && address[..2] == "0x"
    ensures IsLowerHex(address[2..])
    ensures Hex.Decode(address[2..]) == Some(c.sha256(publicKey.encoded)[12..])
  {
    var hash := c.sha256(publicKey.encoded);
    var addressBytes := hash[|hash| - 20..];
    assert addressBytes == hash[12..];
    AddressText(addressBytes);
    var address := "0x" + ToLowerAscii(BytesToHex(addressBytes));
    assert address[2..] == ToLowerAscii(BytesToHex(addressBytes));
    address
  }

  /** "0x" and the lower-cased hex of some bytes: lower-case hex after the prefix, decoding to the bytes. */
  lemma AddressText(bytes: seq<byte>)
    ensures IsAscii(BytesToHex(bytes))
    ensures var address := "0x" + ToLowerAscii(BytesToHex(bytes));
      && |address| == 2 + 2 * |bytes| && address[..2] == "0x"
      && IsLowerHex(address[2..]) && Hex.Decode(address[2..]) == Some(bytes)
  {
    var hex := BytesToHex(bytes);
    BytesToHexRoundTrip(bytes);
    LowerHexIsAscii(hex);
    PrefixSlice("0x", hex);
  }

  lemma PrefixSlice(prefix: string, s: string)
    ensures (prefix + s)[..|prefix|] == prefix && (prefix + s)[|prefix|..] == s
  {
  }

  lemma LowerHexIsAscii(s: string)
    requires IsLowerHex(s)
    ensures IsAscii(s)
    ensures ToLowerAscii(s) == s
  {
    assert IsAscii(s);
    forall k | 0 <= k < |s| ensures ToLowerAscii(s)[k] == s[k] {
      assert IsLowerHexDigit(s[k]);
    }
  }

  /** generateAESKey: the first 16 bytes of SHA-256 of the UTF-8 password; no salt, no iteration. */
  function GenerateAESKey(c: Crypto, password: string): (key: AesKey)
  {
    c.sha256(Utf8.Encode(password))[..16]
  }

  /** encryptPrivateKey: Base64 of the AES/ECB ciphertext of the encoded key under the password's key. */
  function EncryptPrivateKey(c: Crypto, privateKey: PrivateKey, password: string): (encrypted: string)
  {
    c.base64Encode(c.aesEncrypt(GenerateAESKey(c, password), privateKey.encoded))
  }

  /**
   * decryptPrivateKey: Base64-decode, decrypt, and load as a PKCS#8 EC key; any failure is
   * reported with the decryption prefix.
   */
  function DecryptPrivateKey(c: Crypto, encryptedPrivateKey: string, password: string): (r: Result<PrivateKey>)
    ensures r.Failure? ==> DecryptErrorPrefix <= r.message
  {
    var key := GenerateAESKey(c, password);
    match c.base64Decode(encryptedPrivateKey)
    case Failure(m) => Failure(DecryptErrorPrefix + m)
    case Success(ciphertext) =>
      match c.aesDecrypt(key, ciphertext)
      case Failure(m) => Failure(DecryptErrorPrefix + m)
      case Success(plain) =>
        match c.loadPrivateKey(plain)
        case Failure(m) => Failure(DecryptErrorPrefix + m)
        case Success(k) => Success(k)
  }

  /**
   * A key encrypted under a password decrypts, under the same password, back to that key
   * (for a key the EC key factory loads from its own encoding, as every generated key).
   */
  lemma DecryptEncrypt(c: Crypto, privateKey: PrivateKey, password: string)
    requires Lawful(c)
    requires c.loadPrivateKey(privateKey.encoded) == Success(privateKey)
    ensures DecryptPrivateKey(c, EncryptPrivateKey(c, privateKey, password), password) == Success(privateKey)
  {
    var key := GenerateAESKey(c, password);
    var ciphertext := c.aesEncrypt(key, privateKey.encoded);
    assert c.base64Decode(c.base64Encode(ciphertext)) == Success(ciphertext);
    assert c.aesDecrypt(key, ciphertext) == Success(privateKey.encoded);
  }

  /**
   * Decryption only sees the password through the derived key: two passwords with the same
   * SHA-256 prefix unlock the same ciphertexts.
   */
  lemma DecryptDependsOnDerivedKey(c: Crypto, encrypted: string, p1: string, p2: string)
    requires c.sha256(Utf8.Encode(p1))[..16] == c.sha256(Utf8.Encode(p2))[..16]
    ensures DecryptPrivateKey(c, encrypted, p1) == DecryptPrivateKey(c, encrypted, p2)
  {
  }

  // ---------------------------------------------------------------------------------------------
  // Transactions

  function OrEmpty(s: Option<string>): (r: string)
  {
    if s.Some? then s.value else ""
  }

  /** The seven fields in their fixed order, an absent optional field as "". */
  function Fields(tx: TransactionData): (fs: seq<string>)
    ensures |fs| == 7
  {
    [tx.from, tx.to, tx.amount, OrEmpty(tx.gasPrice), OrEmpty(tx.gasLimit), OrEmpty(tx.nonce), OrEmpty(tx.data)]
  }

  /**
   * createTransactionString: the template `from|to|amount|gasPrice|gasLimit|nonce|data`, that is,
   * the seven fields joined by '|'.
   */
  function TransactionString(tx: TransactionData): (canonical: string)
  {
    Join(Fields(tx), '|')
  }

  /** The fields joined with a separator. */
  function Join(fs: seq<string>, sep: char): (joined: string)
    requires |fs| > 0
  {
    if |fs| == 1 then fs[0] else fs[0] + [sep] + Join(fs[1..], sep)
  }

  /** The text split at every occurrence of the separator. */
  function Split(s: string, sep: char): (parts: seq<string>)
    ensures |parts| > 0
    decreases |s|
  {
    if s == [] then [[]]
    else
      var rest := Split(s[1..], sep);
      if s[0] == sep then [[]] + rest else [[s[0]] + rest[0]] + rest[1..]
  }

  lemma SplitPrefix(a: string, rest: string, sep: char)
    requires sep !in a
    ensures Split(a + [sep] + rest, sep) == [a] + Split(rest, sep)
    decreases |a|
  {
    if a == [] {
      assert ([sep] + rest)[1..] == rest;
    } else {
      assert (a + [sep] + rest)[1..] == a[1..] + [sep] + rest;
      SplitPrefix(a[1..], rest, sep);
      assert [a[0]] + a[1..] == a;
    }
  }

  lemma SplitNoSeparator(a: string, sep: char)
    requires sep !in a
    ensures Split(a, sep) == [a]
    decreases |a|
  {
    if a != [] {
      SplitNoSeparator(a[1..], sep);
      assert [a[0]] + a[1..] == a;
    }
  }

  /** Splitting a join of separator-free fields gives the fields back. */
  lemma {:induction false} SplitJoin(fs: seq<string>, sep: char)
    requires |fs| > 0
    requires forall i :: 0 <= i < |fs| ==> sep !in fs[i]
    ensures Split(Join(fs, sep), sep) == fs
    decreases |fs|
  {
    if |fs| == 1 {
      SplitNoSeparator(fs[0], sep);
    } else {
      SplitJoin(fs[1..], sep);
      SplitPrefix(fs[0], Join(fs[1..], sep), sep);
      assert [fs[0]] + fs[1..] == fs;
    }
  }

  /** When no field holds a '|', the canonical string determines the (normalised) fields. */
  lemma TransactionStringDeterminesFields(tx: TransactionData)
    requires forall i :: 0 <= i < 7 ==> '|' !in Fields(tx)[i]
    ensures Split(TransactionString(tx), '|') == Fields(tx)
  {
    SplitJoin(Fields(tx), '|');
  }

  /** Joins that agree after their first two fields and on those two fields joined are equal. */
  lemma JoinFirstTwo(fs: seq<string>, gs: seq<string>, sep: char)
    requires |fs| == |gs| > 2 && fs[2..] == gs[2..]
    requires fs[0] + [sep] + fs[1] == gs[0] + [sep] + gs[1]
    ensures Join(fs, sep) == Join(gs, sep)
  {
    var t := Join(fs[2..], sep);
    assert fs[1..][1..] == fs[2..] && gs[1..][1..] == gs[2..];
    assert Join(fs[1..], sep) == fs[1] + [sep] + t;
    assert Join(gs[1..], sep) == gs[1] + [sep] + t;
    Reassociate(fs[0], fs[1], t, sep);
    Reassociate(gs[0], gs[1], t, sep);
  }

  lemma Reassociate(a: string, b: string, t: string, sep: char)
    ensures a + [sep] + (b + [sep] + t) == (a + [sep] + b) + [sep] + t
  {
  }

  /** A '|' inside a field is not escaped, so two different transactions can share one string. */
  lemma TransactionStringAmbiguous()
    ensures TransactionString(TransactionData("a|b", "c", "1", None, None, None, None))
         == TransactionString(TransactionData("a", "b|c", "1", None, None, None, None))
  {
    var fs := Fields(TransactionData("a|b", "c", "1", None, None, None, None));
    var gs := Fields(TransactionData("a", "b|c", "1", None, None, None, None));
    assert fs[0] + ['|'] + fs[1] == gs[0] + ['|'] + gs[1];
    JoinFirstTwo(fs, gs, '|');
  }

  /** sha256(createTransactionString(tx)) over the UTF-8 bytes. */
  function TransactionHash(c: Crypto, tx: TransactionData): (hash: Digest)
  {
    c.sha256(Utf8.Encode(TransactionString(tx)))
  }

  /**
   * An absent optional field and an explicit "" are the same to the canonical string, hence to
   * the hash and to every signature over it.
   */
  lemma AbsentEqualsEmpty(c: Crypto, a: TransactionData, b: TransactionData)
    requires a.from == b.from && a.to == b.to && a.amount == b.amount
    requires OrEmpty(a.gasPrice) == OrEmpty(b.gasPrice) && OrEmpty(a.gasLimit) == OrEmpty(b.gasLimit)
    requires OrEmpty(a.nonce) == OrEmpty(b.nonce) && OrEmpty(a.data) == OrEmpty(b.data)
    ensures TransactionString(a) == TransactionString(b)
    ensures TransactionHash(c, a) == TransactionHash(c, b)
  {
  }

  /**
   * signTransaction: signs the canonical hash with the private key. The public key it reports is
   * that of `freshPair`, a key pair generated anew inside the call (getPublicKeyFromPrivate), not
   * the signer's; generating or loading that pair is the call's only failure.
   */
  function SignTransaction(c: Crypto, tx: TransactionData, privateKey: PrivateKey, freshPair: Result<KeyPair>)
    : (r: Result<SignatureResult>)
    ensures r.Failure? <==> freshPair.Failure? || c.loadPublicKey(freshPair.value.publicKey.encoded).Failure?
    ensures r.Failure? ==> SignErrorPrefix <= r.message
    ensures r.Success? ==>
      && r.value.signature == c.base64Encode(c.ecdsaSign(privateKey, TransactionHash(c, tx)))
      && |r.value.transactionHash| == 64 && IsLowerHex(r.value.transactionHash)
      && Hex.Decode(r.value.transactionHash) == Some(TransactionHash(c, tx))
  {
    var hash := TransactionHash(c, tx);
    var signatureBytes := c.ecdsaSign(privateKey, hash);
    match freshPair
    case Failure(m) => Failure(SignErrorPrefix + m)
    case Success(pair) =>
      match c.loadPublicKey(pair.publicKey.encoded)
      case Failure(m) => Failure(SignErrorPrefix + m)
      case Success(publicKey) =>
        BytesToHexRoundTrip(hash);
        Success(SignatureResult(c.base64Encode(signatureBytes), c.base64Encode(publicKey.encoded), BytesToHex(hash)))
  }

  /** The public key of a signature result does not depend on the private key that signed. */
  lemma SignatureKeyIgnoresSigner(c: Crypto, tx: TransactionData, k1: PrivateKey, k2: PrivateKey, freshPair: Result<KeyPair>)
    requires SignTransaction(c, tx, k1, freshPair).Success?
    ensures SignTransaction(c, tx, k2, freshPair).Success?
    ensures SignTransaction(c, tx, k1, freshPair).value.publicKey == SignTransaction(c, tx, k2, freshPair).value.publicKey
  {
  }

  /**
   * verifySignature: recomputes the canonical hash, decodes and loads the public key, decodes the
   * signature and asks ECDSA; every failure on the way is `false`.
   */
  function VerifySignature(c: Crypto, tx: TransactionData, result: SignatureResult): (ok: bool)
    ensures ok ==>
      && c.base64Decode(result.publicKey).Success?
      && c.loadPublicKey(c.base64Decode(result.publicKey).value).Success?
      && c.base64Decode(result.signature).Success?
      && c.ecdsaVerify(c.loadPublicKey(c.base64Decode(result.publicKey).value).value,
                       TransactionHash(c, tx), c.base64Decode(result.signature).value) == Success(true)
  {
    var hash := TransactionHash(c, tx);
    match c.base64Decode(result.publicKey)
    case Failure(_) => false
    case Success(keyBytes) =>
      match c.loadPublicKey(keyBytes)
      case Failure(_) => false
      case Success(publicKey) =>
        match c.base64Decode(result.signature)
        case Failure(_) => false
        case Success(signatureBytes) =>
          match c.ecdsaVerify(publicKey, hash, signatureBytes)
          case Failure(_) => false
          case Success(valid) => valid
  }

  /**
   * Verification accepts a signature made with a private key when the result carries the
   * matching public key and ECDSA accepts the pair.
   */
  lemma VerifyAcceptsMatchingKey(c: Crypto, tx: TransactionData, pair: KeyPair, hashText: string)
    requires Lawful(c)
    requires c.loadPublicKey(pair.publicKey.encoded) == Success(pair.publicKey)
    requires c.ecdsaVerify(pair.publicKey, TransactionHash(c, tx),
                           c.ecdsaSign(pair.privateKey, TransactionHash(c, tx))) == Success(true)
    ensures VerifySignature(c, tx, SignatureResult(
      c.base64Encode(c.ecdsaSign(pair.privateKey, TransactionHash(c, tx))),
      c.base64Encode(pair.publicKey.encoded), hashText))
  {
    var signatureBytes := c.ecdsaSign(pair.privateKey, TransactionHash(c, tx));
    assert c.base64Decode(c.base64Encode(pair.publicKey.encoded)) == Success(pair.publicKey.encoded);
    assert c.base64Decode(c.base64Encode(signatureBytes)) == Success(signatureBytes);
  }

  // ---------------------------------------------------------------------------------------------
  // Card identity

  /** generateCardId: 8 random bytes as 16 upper-case hex characters. */
  function GenerateCardId(random: Bytes8): (cardId: string)
    ensures |cardId| == 16
    ensures forall k :: 0 <= k < 16 ==> IsUpperHexDigit(cardId[k])
    ensures Hex.Decode(cardId) == Some(random)
  {
    UpperCaseHex(random);
    ToUpperAscii(BytesToHex(random))
  }

  lemma UpperOfLowerDigit(n: int)
    requires 0 <= n < 16
    ensures IsUpperHexDigit(UpperChar(LowerHexDigit(n)))
    ensures Hex.DigitValue(UpperChar(LowerHexDigit(n))) == Some(n)
  {
  }

  lemma UpperCaseHex(b: seq<byte>)
    ensures IsAscii(BytesToHex(b))
    ensures forall k :: 0 <= k < 2 * |b| ==> IsUpperHexDigit(ToUpperAscii(BytesToHex(b))[k])
    ensures Hex.Decode(ToUpperAscii(BytesToHex(b))) == Some(b)
  {
    var hex := BytesToHex(b);
    BytesToHexRoundTrip(b);
    LowerHexIsAscii(hex);
    var up := ToUpperAscii(hex);
    UpperPairs(b, hex, up);
    forall k | 0 <= k < |up| ensures IsUpperHexDigit(up[k]) {
      var i := k / 2;
      assert k == 2 * i || k == 2 * i + 1;
    }
    Hex.DecodePairs(up, b);
  }

  lemma UpperPairs(b: seq<byte>, hex: string, up: string)
    requires hex == BytesToHex(b) && IsAscii(hex) && up == ToUpperAscii(hex)
    ensures forall i :: 0 <= i < |b| ==>
      && IsUpperHexDigit(up[2 * i]) && IsUpperHexDigit(up[2 * i + 1])
      && Hex.DigitValue(up[2 * i]) == Some(b[i] as int / 16)
      && Hex.DigitValue(up[2 * i + 1]) == Some(b[i] as int % 16)
  {
    forall i | 0 <= i < |b|
      ensures IsUpperHexDigit(up[2 * i]) && IsUpperHexDigit(up[2 * i + 1])
      ensures Hex.DigitValue(up[2 * i]) == Some(b[i] as int / 16)
      ensures Hex.DigitValue(up[2 * i + 1]) == Some(b[i] as int % 16)
    {
      var hi, lo := b[i] as int / 16, b[i] as int % 16;
      assert up[2 * i] == UpperChar(LowerHexDigit(hi));
      UpperOfLowerDigit(hi);
      assert up[2 * i + 1] == UpperChar(LowerHexDigit(lo));
      UpperOfLowerDigit(lo);
    }
  }
}
