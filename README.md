# NFC hardware-wallet card: a Dafny model

This project models the core of an Android app that turns an NFC tag into a simplified
hardware-wallet card in the style of Tangem. There are three pieces.

- **`TangemCardManager`** (`tangem_card_manager.dfy`) is the card command protocol.
  - `InitializeCard` generates a key pair. It builds a `WalletData` and a `CardInfo` and writes both, as one JSON text record, onto the tag.
  - `ProcessCommand` reads that record back. It then dispatches `GET_CARD_INFO`, `GET_PUBLIC_KEY`, `SIGN_TRANSACTION` and `BACKUP_WALLET` to their handlers.
  - Every path answers with a `CardResponse` value.
  - The tag is a `Tag` object. It has a fixed technology and an NDEF message that `WriteToCard` replaces.
- **`CryptoUtils`** (`crypto_utils.dfy`) is the wallet glue.
  - The canonical transaction string and its hash.
  - The address: `"0x"` and the lower-case hex of the last 20 digest bytes.
  - The password key derivation: the first 16 bytes of SHA-256.
  - Private-key encryption and decryption, signing and verification.
  - Lower-case hex and the 16-character upper-case card ID.
- **`NFCUtils`** (`nfc_utils.dfy`) covers text records and input hygiene.
  - NFC Forum Text records. The payload is a status byte holding the language-code length, then the ASCII language code, then the UTF-8 text.
  - The record-size check.
  - The upper-case hex formatter.
  - `sanitizeInput`, `isValidText` and the letter-run test of `isEncryptedText`.

Supporting modules:
- `Base` holds the byte type, `Option` and `Result`.
- `Utf8` is a concrete UTF-8 encoder, plus a decoder that replaces each maximal ill-formed subsequence with U+FFFD. It carries a decode-of-encode round-trip proof.
- `Hex` is a hex-text decoder. It serves as the inverse that both hex formatters are proved against.

The system's foreign parts are values passed in, rather than code:
- SHA-256, AES/ECB/PKCS5, Base64, the EC key factory and ECDSA are the fields of a `CryptoUtils.Crypto` value.
  - The digest length of 32 is part of their types.
  - The ghost predicate `CryptoUtils.Lawful` holds the cipher and Base64 laws: decryption inverts encryption under the same key, and Base64 decoding inverts encoding.
  - The lemmas that need more state it as a hypothesis of their own. These are the key factory reloading a key from its own encoding, ECDSA accepting a pair's signatures, and the JSON decoding inverting the encoding.
- Gson is a `TangemCardManager.Gson` value holding the JSON encoding/decoding of the `{wallet, info}` record and transaction parsing.
- The clock reading, the outcome of the I/O calls on the tag (`link`, a `TangemCardManager.Link`) and the random values (key pairs and card-ID bytes) are the fields of a `TangemCardManager.Environment` value.
  - `Completes`: every call returns.
  - `FailsBeforeWrite`: `connect` throws.
  - `FailsDuringWrite(left)`: the write or format throws and leaves the message `left` on the tag.
  - `FailsAfterWrite`: `close` throws after the new message is on the tag.

Two facts about the code:
- When no record can be read, `processCommand` answers with status `ERROR` (TangemCardManager.kt:139-143).
- `writeToCard` checks no payload capacity before writing. The size check exists only in `validateDataLength` and the older UI.

## Model

| member | source | states |
|---|---|---|
| TangemCardManager.Tag.WriteToCard | app/src/main/java/com/example/nfccard/TangemCardManager.kt:270-302 | succeeds exactly when the tag offers NDEF or NDEF-formatable and every I/O call completes; then, and also when only `close` fails, the tag's message is the single text record (language "en") of the JSON of `{wallet, info}`; an interrupted write leaves whatever message the link reports; without NDEF technology or when `connect` fails the message is unchanged |
| TangemCardManager.Tag.ReadFromCard | app/src/main/java/com/example/nfccard/TangemCardManager.kt:307-336 | returns the record `ReadRecord` describes: absent without an NDEF connection, without a message, with an empty message, when the first record is not a text record, or when the JSON does not decode |
| TangemCardManager.ReadRecord | app/src/main/java/com/example/nfccard/TangemCardManager.kt:309-326 | a record is found only through an NDEF connection, from a non-empty message whose first record parses as text that the JSON library decodes to it |
| TangemCardManager.WriteThenRead | app/src/main/java/com/example/nfccard/TangemCardManager.kt:270-326 | reading the message written for a record yields that record, whenever the JSON decoding inverts the encoding |
| TangemCardManager.CardRecordFor | app/src/main/java/com/example/nfccard/TangemCardManager.kt:80-105 | the card information has status INITIALIZED and repeats the wallet's card ID, public key, address and creation time; the wallet's public key is the Base64 key encoding, its address the derived address, its ciphertext is `EncryptPrivateKey` of the private key under the password, its card ID is `GenerateCardId` of the random bytes (16 characters), its creation time the clock reading |
| TangemCardManager.InitializeCard | app/src/main/java/com/example/nfccard/TangemCardManager.kt:77-130 | with a key pair, success exactly when the write succeeds, answering the card information and INITIALIZED; a write failure answers "写入卡片失败" with ERROR, the tag holding what `WriteToCard` states for that link outcome; a key-generation failure answers "初始化失败: …" with ERROR and leaves the tag unchanged |
| TangemCardManager.ProcessCommand | app/src/main/java/com/example/nfccard/TangemCardManager.kt:135-164 | without a readable record the answer is "无法读取卡片数据" with ERROR and no handler runs; otherwise the answer is the dispatch of the record; the method cannot write the tag (no `modifies` clause) |
| TangemCardManager.Dispatch | app/src/main/java/com/example/nfccard/TangemCardManager.kt:146-156 | INITIALIZE_CARD is answered "不支持的命令类型" with ERROR; every other command echoes the stored status; every answer is well formed (data xor error) |
| TangemCardManager.GetCardInfo | app/src/main/java/com/example/nfccard/TangemCardManager.kt:169-176 | success with the stored card information in which only `lastUsed` is replaced (by the current time) and the stored status |
| TangemCardManager.GetPublicKey | app/src/main/java/com/example/nfccard/TangemCardManager.kt:181-188 | success with the wallet's public key text verbatim and the stored status |
| TangemCardManager.SignTransaction | app/src/main/java/com/example/nfccard/TangemCardManager.kt:193-229 | a missing password or missing data fails with "缺少密码或交易数据"; otherwise success exactly when decryption, parsing and signing all succeed, with their signature result as data, and each failure carries the "签名失败: " prefix; the status is always the stored one |
| TangemCardManager.MissingSignInputIgnoresEnvironment | app/src/main/java/com/example/nfccard/TangemCardManager.kt:199-205 | with a password or data missing, the answer does not depend on the crypto provider, the JSON library or the random values, so no decryption is attempted |
| TangemCardManager.BackupWallet | app/src/main/java/com/example/nfccard/TangemCardManager.kt:234-265 | a missing password fails with "缺少密码"; success exactly when the password decrypts the private key, with the stored wallet unchanged as data; a failed decryption gives "密码验证失败"; the status is the stored one |
| TangemCardManager.InitializeThenGetCardInfo | app/src/main/java/com/example/nfccard/TangemCardManager.kt:99-108 | after initialisation, GET_CARD_INFO on the written message succeeds with status INITIALIZED and the address derived from the card's public key, when the JSON round trip holds |
| TangemCardManager.BackupWithInitialPassword | app/src/main/java/com/example/nfccard/TangemCardManager.kt:240-257 | BACKUP_WALLET with the initialisation password succeeds, returning the wallet whose ciphertext decrypts back to the card's private key, for a private key the key factory reloads from its encoding |
| TangemCardManager.SignWithInitialPassword | app/src/main/java/com/example/nfccard/TangemCardManager.kt:207-221 | SIGN_TRANSACTION with the initialisation password signs with the card's own private key, and fails only when the data does not parse or the extra key pair cannot be produced, for a private key the key factory reloads from its encoding |
| CryptoUtils.BytesToHex | app/src/main/java/com/example/nfccard/CryptoUtils.kt:229-231 | two characters per byte: the lower-case hex digits of its high and its low nibble |
| CryptoUtils.BytesToHexRoundTrip | app/src/main/java/com/example/nfccard/CryptoUtils.kt:229-231 | the output is lower-case hex and decodes back to the input bytes |
| CryptoUtils.GenerateEthereumAddress | app/src/main/java/com/example/nfccard/CryptoUtils.kt:75-90 | 42 characters: "0x" followed by 40 lower-case hex characters that decode to bytes 12..31 of SHA-256 of the encoded key |
| CryptoUtils.DecryptDependsOnDerivedKey | app/src/main/java/com/example/nfccard/CryptoUtils.kt:193-197 | decryption sees the password only through the first 16 bytes of SHA-256 of its UTF-8 form: no salt, no card-specific input |
| CryptoUtils.DecryptPrivateKey | app/src/main/java/com/example/nfccard/CryptoUtils.kt:113-129 | every failure (Base64, cipher, key loading) is reported with the "私钥解密失败: " prefix |
| CryptoUtils.GenerateAESKey | app/src/main/java/com/example/nfccard/CryptoUtils.kt:193-197 | the AES key is the first 16 bytes of SHA-256 of the password's UTF-8 bytes; `DecryptDependsOnDerivedKey` and `DecryptEncrypt` carry its properties |
| CryptoUtils.EncryptPrivateKey | app/src/main/java/com/example/nfccard/CryptoUtils.kt:95-104 | the Base64 text of the AES/ECB encryption of the encoded private key under that key; `DecryptEncrypt` states that `DecryptPrivateKey` inverts it |
| CryptoUtils.DecryptEncrypt | app/src/main/java/com/example/nfccard/CryptoUtils.kt:95-129 | decrypting under a password what was encrypted under it recovers the private key, under the cipher and Base64 laws, for a private key the key factory reloads from its encoding |
| CryptoUtils.TransactionString | app/src/main/java/com/example/nfccard/CryptoUtils.kt:202-206 | from, to, amount, gasPrice, gasLimit, nonce and data joined by '\|', an absent field as ""; `TransactionStringDeterminesFields`, `TransactionStringAmbiguous` and `AbsentEqualsEmpty` carry its properties |
| CryptoUtils.TransactionHash | app/src/main/java/com/example/nfccard/CryptoUtils.kt:211-214 | SHA-256 of the UTF-8 bytes of the canonical string; `AbsentEqualsEmpty` and `SignTransaction` carry its properties |
| CryptoUtils.TransactionStringDeterminesFields | app/src/main/java/com/example/nfccard/CryptoUtils.kt:202-206 | the canonical string splits at '\|' into from, to, amount, gasPrice, gasLimit, nonce, data in that order, absent ones as "", whenever no field contains '\|' |
| CryptoUtils.TransactionStringAmbiguous | app/src/main/java/com/example/nfccard/CryptoUtils.kt:202-206 | a '\|' inside a field is not escaped: two different transactions share one canonical string |
| CryptoUtils.AbsentEqualsEmpty | app/src/main/java/com/example/nfccard/CryptoUtils.kt:202-214 | an absent optional field and an explicit "" give the same canonical string and the same hash |
| CryptoUtils.SignTransaction | app/src/main/java/com/example/nfccard/CryptoUtils.kt:134-160 | fails exactly when the extra key pair or its loading fails, with the "交易签名失败: " prefix; on success the signature is the Base64 ECDSA signature of the canonical hash and the transaction hash is 64 lower-case hex characters decoding to that hash |
| CryptoUtils.SignatureKeyIgnoresSigner | app/src/main/java/com/example/nfccard/CryptoUtils.kt:146-154 | the public key reported in a signature result is the same whichever private key signed |
| CryptoUtils.VerifySignature | app/src/main/java/com/example/nfccard/CryptoUtils.kt:165-188 | total; true only when the public key and the signature decode, the key loads and ECDSA accepts the signature over the canonical hash, and false on any failure |
| CryptoUtils.VerifyAcceptsMatchingKey | app/src/main/java/com/example/nfccard/CryptoUtils.kt:165-188 | a result carrying a signature and the public key of the same pair verifies, when ECDSA accepts that pair's signatures, for a pair whose public key loads from its encoding |
| CryptoUtils.GenerateCardId | app/src/main/java/com/example/nfccard/CryptoUtils.kt:236-241 | 16 characters, each in 0-9A-F, decoding back to the 8 random bytes |
| NFCUtils.AsciiEncode | NFCCardApp/app/src/main/java/com/example/nfccard/NFCUtils.kt:22 | one byte per character: the code of an ASCII character, '?' for any other |
| NFCUtils.CopyInto | NFCCardApp/app/src/main/java/com/example/nfccard/NFCUtils.kt:32-35 | the array holds the source from the given position on and is otherwise unchanged |
| NFCUtils.CreateTextRecord | NFCCardApp/app/src/main/java/com/example/nfccard/NFCUtils.kt:21-38 | a well-known "T" record with empty id; the payload is 1 + L + \|UTF-8 text\| bytes: byte 0 is L (mod 256), bytes 1..L the ASCII language code, the rest the UTF-8 text |
| NFCUtils.ParseTextRecord | NFCCardApp/app/src/main/java/com/example/nfccard/NFCUtils.kt:43-62 | a text exactly for a well-known "T" record with a non-empty payload whose 6-bit length does not point past the end; then the UTF-8 decoding of the bytes after the language code |
| NFCUtils.ParseCreatedTextRecord | NFCCardApp/app/src/main/java/com/example/nfccard/NFCUtils.kt:21-53 | parsing a created text record returns its text whenever the language code is shorter than 64 characters |
| NFCUtils.ParseLongLanguageCode | NFCCardApp/app/src/main/java/com/example/nfccard/NFCUtils.kt:29-51 | with a 64-character language code the 6-bit length wraps to 0 and the round trip fails |
| NFCUtils.ValidateDataLength | NFCCardApp/app/src/main/java/com/example/nfccard/NFCUtils.kt:134-138 | the serialised size of the "en" text record of the data, plus 3, is at most maxSize; `ValidateDataLengthBound` states it in terms of the text's UTF-8 size |
| NFCUtils.ValidateDataLengthBound | NFCCardApp/app/src/main/java/com/example/nfccard/NFCUtils.kt:134-138 | the size check holds iff the serialised record (4 header bytes for a short record, 7 otherwise, plus the payload of 3 + n bytes for n UTF-8 bytes of text) plus 3 is at most maxSize |
| NFCUtils.BytesToHex | NFCCardApp/app/src/main/java/com/example/nfccard/NFCUtils.kt:120-129 | two characters of "0123456789ABCDEF" per byte, high nibble first; the output decodes back to the input |
| NFCUtils.Trim | NFCCardApp/app/src/main/java/com/example/nfccard/NFCUtils.kt:144 | a slice of the input surrounded only by whitespace, beginning and ending with non-whitespace, empty exactly for blank input |
| NFCUtils.RemoveControls | NFCCardApp/app/src/main/java/com/example/nfccard/NFCUtils.kt:145 | no character in U+0000–U+001F or U+007F remains; the length does not grow; input without such characters is unchanged, and input made only of them becomes empty |
| NFCUtils.RemoveControlsConcat | NFCCardApp/app/src/main/java/com/example/nfccard/NFCUtils.kt:145 | the removal works character by character: on a concatenation it is the concatenation of the removals, so the kept characters stay in order |
| NFCUtils.SanitizeTrimmedInput | NFCCardApp/app/src/main/java/com/example/nfccard/NFCUtils.kt:143-147 | input without surrounding whitespace and within 1000 characters only loses its control characters |
| NFCUtils.SanitizeInput | NFCCardApp/app/src/main/java/com/example/nfccard/NFCUtils.kt:143-147 | at most 1000 characters and no character in U+0000–U+001F or U+007F |
| NFCUtils.SanitizeKeepsCleanInput | NFCCardApp/app/src/main/java/com/example/nfccard/NFCUtils.kt:143-147 | input already trimmed, without controls and within 1000 characters passes unchanged |
| NFCUtils.SanitizeInnerControl | NFCCardApp/app/src/main/java/com/example/nfccard/NFCUtils.kt:143-147 | for any control character between two non-control, non-whitespace characters, sanitising drops the control (it does not replace it) and keeps the two characters in order |
| NFCUtils.SanitizeNotIdempotent | NFCCardApp/app/src/main/java/com/example/nfccard/NFCUtils.kt:143-147 | trimming before removing controls means sanitising twice can differ from sanitising once |
| NFCUtils.IsValidText | NFCCardApp/app/src/main/java/com/example/nfccard/NFCUtils.kt:152-157 | not blank, and the whole text is matched by `.*[a-zA-Z0-9].*`, where `.` matches anything but a line terminator; `IsValidTextCharacterization` carries its properties |
| NFCUtils.IsValidTextCharacterization | NFCCardApp/app/src/main/java/com/example/nfccard/NFCUtils.kt:152-157 | blank text is invalid; single-line text is valid iff it holds an ASCII letter or digit; text with a line terminator is invalid |
| NFCUtils.IsEncryptedText | NFCCardApp/app/src/main/java/com/example/nfccard/NFCUtils.kt:107-115 | the Base64 decoder accepts the text and the whole text is not matched by `.*[a-zA-Z]{3,}.*`; `LetterRunIsNotEncrypted` and `MultiLineIsEncrypted` carry its properties |
| NFCUtils.LetterRunIsNotEncrypted | NFCCardApp/app/src/main/java/com/example/nfccard/NFCUtils.kt:107-115 | single-line text with three consecutive ASCII letters is never taken for ciphertext |
| NFCUtils.MultiLineIsEncrypted | NFCCardApp/app/src/main/java/com/example/nfccard/NFCUtils.kt:107-115 | any Base64-decodable text that contains a line terminator is taken for ciphertext |
| Utf8.EncodeChar | NFCCardApp/app/src/main/java/com/example/nfccard/NFCUtils.kt:23 | 1 to 4 bytes per character, a single byte exactly for ASCII |
| Utf8.DecodeEncode | NFCCardApp/app/src/main/java/com/example/nfccard/NFCUtils.kt:23-52 | decoding the UTF-8 encoding of a string gives the string back |

## Left out

- Android NFC I/O (`Ndef`/`NdefFormatable` `connect`, `writeNdefMessage`, `format`, `close`) is a message update on the `Tag` object. Every exception those calls can raise is one of the `Link` failure outcomes. That includes a tag too small for the message, a read-only tag, and a tag already formatted. Which message a failed write leaves on the tag is the parameter `left`, not derived from the hardware. Reading uses only whether every call completes.
- The tag's technology is fixed for the session. A tag formatted by `WriteToCard` is, as on Android, still not offered as NDEF to `ReadFromCard`.
- JSON (Gson) is an oracle. The JSON text of responses is replaced by the typed `ResponseData`. Gson filling a non-null Kotlin field with null is not modelled.
- The cryptographic primitives are oracles.
  - Only the cipher and Base64 inverse laws are assumed.
  - Whether a wrong password is rejected is not stated, because AES/ECB/PKCS5 can accept a wrong key.
  - Signing with a rejected key (an exception inside `ecdsaSign`) is not modelled. `ecdsaSign` is total.
- CryptoUtils.SignTransaction: no `verify(sign(...))` round trip is stated. The source reports the public key of a freshly generated pair, not the signer's (`getPublicKeyFromPrivate`, CryptoUtils.kt:219-224). `SignatureKeyIgnoresSigner` states that defect.
- Time is a single reading `now` per call. The source reads the clock once for `WalletData.createdAt` and again for `CardInfo.lastUsed`.
- Exception messages are abstract strings. A null message, which Kotlin renders as "null", is not distinguished.
- The outer `catch` of `processCommand` ("命令处理失败") cannot trigger in the model, because JSON rendering is abstracted.
- The `catch` of `initializeCard` is reached only by a key-generation failure. `generateEthereumAddress` and `encryptPrivateKey` are total here.
- The `NFCUtils` of the `app/` module is not part of this model. `TangemCardManager` is modelled against `NFCCardApp/.../NFCUtils.kt`, whose `createTextRecord` and `parseTextRecord` have the same name and arguments.
- NFCUtils.SanitizeInput: `take(1000)` counts UTF-16 code units in the source and characters here. Lone surrogates are not representable, since Dafny characters are Unicode scalar values.
- NFCUtils.IsValidText and NFCUtils.IsEncryptedText: `.` follows the ICU regular expressions that back `java.util.regex` on Android. ICU's line terminators also include VT (U+000B) and FF (U+000C). A desktop JDK's `.` matches those two characters.
- NFCUtils.IsEncryptedText: whether `Base64.decode` accepts the text is the parameter `decodes`. The Base64 grammar is not modelled.
- CryptoUtils.ToUpperAscii and CryptoUtils.ToLowerAscii: Kotlin's `uppercase()`/`lowercase()` are modelled only for ASCII text. They are applied only to hex text here.
- `NFCUtils.encryptText`/`decryptText`/`generateKey` (thin AES wrappers), `getTagInfo`, `generateKeyPair` and both `MainActivity.kt` files are not part of this model. They are UI, key generation (given as entropy) and foreign calls.
- The UTF-8 decoder follows the Unicode "maximal subpart" replacement practice, which is assumed to match the JDK decoder on malformed input.
